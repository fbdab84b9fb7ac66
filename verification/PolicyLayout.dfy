/** Policy files as their author lays them out, and the law that layout does not matter: every
    file of the grammar below parses to the meaning of its entries, whatever the indentation,
    the spacing, the line breaks inside arrays, the comments and the blank lines are. */
module PolicyLayout {
  import opened Text
  import opened PolicySpec

  /** One array element with the whitespace around it and an optional comma after it. */
  datatype Elem = Elem(before: string, quote: char, item: string, after: string, comma: bool)

  datatype Line =
    | BlankLine(indent: string)
    | CommentLine(indent: string, mark: char, text: string)
    | HeaderLine(indent: string, double: bool, left: string, name: string, right: string, tail: string)
    | ScalarLine(indent: string, key: string, beforeEq: string, afterEq: string, value: string,
                 afterValue: string, comment: Option<string>)
      // The byte after the closing bracket is always swallowed; what follows it is a new line.
    | ArrayLine(indent: string, key: string, beforeEq: string, afterEq: string, elems: seq<Elem>,
                last: string, next: char)

  // ---- Text ------------------------------------------------------------------------------

  function ElemText(e: Elem): string {
    e.before + [e.quote] + e.item + [e.quote] + e.after + if e.comma then "," else ""
  }

  function ElemsText(es: seq<Elem>): string {
    if es == [] then "" else ElemText(es[0]) + ElemsText(es[1..])
  }

  function CommentText(c: Option<string>): string {
    if c.Some? then "#" + c.value else ""
  }

  /** The line without its indentation. */
  function CoreText(l: Line): string {
    match l
    case BlankLine(_) => "\n"
    case CommentLine(_, mark, text) => [mark] + text + "\n"
    case HeaderLine(_, double, left, name, right, tail) =>
      (if double then "[[" else "[") + left + name + right + "]" + tail + "\n"
    case ScalarLine(_, key, beforeEq, afterEq, value, afterValue, comment) =>
      key + beforeEq + "=" + (afterEq + value + afterValue + CommentText(comment)) + "\n"
    case ArrayLine(_, key, beforeEq, afterEq, elems, last, next) =>
      key + beforeEq + "=" + (afterEq + ("[" + (ElemsText(elems) + last) + "]")) + [next]
  }

  function LinesText(ls: seq<Line>): string {
    if ls == [] then "" else ls[0].indent + CoreText(ls[0]) + LinesText(ls[1..])
  }

  // ---- Well-formed layout ----------------------------------------------------------------

  predicate Lacks(s: string, c: char) { forall i :: 0 <= i < |s| ==> s[i] != c }

  predicate ElemOk(e: Elem) {
    && AllWs(e.before) && AllWs(e.after) && NUL !in e.item
    && (e.quote == '"' || e.quote == '\'') && Lacks(e.item, e.quote)
  }

  /** Where a walk along `x` stands at its end: how deep in brackets and whether in double quotes; or
      the bracket it started in was closed on the way. */
  datatype Walked = Closed | At(depth: nat, inQ: bool)

  /** The walk knows no single quotes: brackets and double quotes count wherever they stand. */
  function Walk(x: string, depth: nat, inQ: bool): Walked {
    if depth == 0 then Closed
    else if x == [] then At(depth, inQ)
    else if inQ then Walk(x[1..], depth, x[0] != '"')
    else if x[0] == '"' then Walk(x[1..], depth, true)
    else if x[0] == '[' then Walk(x[1..], depth + 1, false)
    else if x[0] == ']' then Walk(x[1..], depth - 1, false)
    else Walk(x[1..], depth, false)
  }

  /** The text between an array's brackets leaves a walk where it started. */
  predicate Balanced(body: string) { Walk(body, 1, false) == At(1, false) }

  predicate KeyOk(key: string) {
    && key != [] && Tight(key) && NUL !in key && Lacks(key, '=') && Lacks(key, '\n')
    && key[0] != '#' && key[0] != '['
  }

  predicate ScalarKey(key: string) {
    key in ["timestamp_ttl", "require_auth", "audit_log", "max_command_len", "include_dir", "log_session",
            "session_log_dir", "log_input", "nss_groups", "user", "group", "run_as", "description",
            "selinux_context", "apparmor_profile"]
  }

  /** Is a scan that enters `s` with string state `q` inside double quotes at its end? */
  function InStr(s: string, q: bool): bool {
    if s == [] then q else InStr(s[1..], if s[0] == '"' then !q else q)
  }

  predicate ValueOk(v: string, comment: Option<string>) {
    && Tight(v) && NUL !in v && Lacks(v, '\n') && (v != [] ==> v[0] != '[')
    && CommentAt(v, false) == |v|
    && (comment.Some? ==> !InStr(v, false) && Lacks(comment.value, '\n'))
  }

  predicate PadOk(s: string) { AllWs(s) && Lacks(s, '\n') }

  predicate LineOk(l: Line) {
    AllBlank(l.indent) &&
    match l
    case BlankLine(_) => true
    case CommentLine(_, mark, text) => (mark == '#' || mark == '\r') && Lacks(text, '\n')
    case HeaderLine(_, double, left, name, right, tail) =>
      && PadOk(left) && PadOk(right) && Tight(name) && NUL !in name
      && Lacks(name, ']') && Lacks(name, '\n') && Lacks(tail, '\n')
      && (double || left != [] || name == [] || name[0] != '[')
    case ScalarLine(_, key, beforeEq, afterEq, value, afterValue, comment) =>
      && KeyOk(key) && PadOk(beforeEq) && AllBlank(afterEq) && PadOk(afterValue)
      && ValueOk(value, comment) && (value == [] ==> afterValue == [])
    case ArrayLine(_, key, beforeEq, afterEq, elems, last, next) =>
      && KeyOk(key) && !ScalarKey(key) && PadOk(beforeEq) && AllBlank(afterEq)
      && Rest(elems, last) && Balanced(ElemsText(elems) + last)
  }

  // ---- Meaning ---------------------------------------------------------------------------

  function ItemsOf(es: seq<Elem>): seq<string> {
    seq(|es|, i requires 0 <= i < |es| => es[i].item)
  }

  function SetList(r: Rule, key: string, items: seq<string>): Rule {
    if key == "commands" then r.(commands := items)
    else if key == "deny_commands" then r.(denyCommands := items)
    else if key == "capabilities" then r.(capabilities := items)
    else r
  }

  /** What a list-valued entry means. */
  function AssignList(st: PState, key: string, items: seq<string>): (r: PState)
    requires PolicySpec.Valid(st)
    ensures PolicySpec.Valid(r)
  {
    var p := st.policy;
    match st.section
    case NoSection => st
    case DefaultsSection =>
      if key == "env_keep" then st.(policy := p.(defaults := p.defaults.(envKeep := items))) else st
    case RuleSection =>
      var last := |p.rules| - 1;
      st.(policy := p.(rules := p.rules[last := SetList(p.rules[last], key, items)]))
  }

  function LineMeaning(l: Line, st: PState): (r: PState)
    requires PolicySpec.Valid(st)
    ensures PolicySpec.Valid(r)
  {
    match l
    case BlankLine(_) => st
    case CommentLine(_, _, _) => st
    case HeaderLine(_, _, _, name, _, _) => Enter(st, name)
    case ScalarLine(_, key, _, _, value, _, _) => Assign(st, key, value)
    case ArrayLine(_, key, _, _, elems, _, _) => AssignList(st, key, ItemsOf(elems))
  }

  function Meaning(ls: seq<Line>, st: PState): (r: PState)
    requires PolicySpec.Valid(st)
    ensures PolicySpec.Valid(r)
  {
    if ls == [] then st else Meaning(ls[1..], LineMeaning(ls[0], st))
  }

  // ---- Arrays ----------------------------------------------------------------------------

  lemma {:induction false} WalkAppend(x: string, y: string, depth: nat, inQ: bool)
    ensures Walk(x + y, depth, inQ) ==
              match Walk(x, depth, inQ) { case Closed => Closed case At(d, q) => Walk(y, d, q) }
  {
    if depth > 0 {
      if x == [] {
        assert x + y == y;
      } else {
        assert (x + y)[1..] == x[1..] + y;
        if inQ { WalkAppend(x[1..], y, depth, x[0] != '"'); }
        else if x[0] == '"' { WalkAppend(x[1..], y, depth, true); }
        else if x[0] == '[' { WalkAppend(x[1..], y, depth + 1, false); }
        else if x[0] == ']' { WalkAppend(x[1..], y, depth - 1, false); }
        else { WalkAppend(x[1..], y, depth, false); }
      }
    }
  }

  /** The bracket scan goes on where the walk stands, or has stopped just behind a bracket. */
  lemma {:induction false} ScanWalk(x: string, y: string, depth: nat, inQ: bool)
    requires depth > 0
    ensures var n := Scan(x + y, depth, inQ);
            match Walk(x, depth, inQ)
            case At(d, q) => n == |x| + Scan(y, d, q)
            case Closed => 1 <= n <= |x| && x[n - 1] == ']'
  {
    if x == [] {
      assert x + y == y;
    } else {
      assert (x + y)[1..] == x[1..] + y;
      if inQ { ScanWalk(x[1..], y, depth, x[0] != '"'); }
      else if x[0] == '"' { ScanWalk(x[1..], y, depth, true); }
      else if x[0] == '[' { ScanWalk(x[1..], y, depth + 1, false); }
      else if x[0] == ']' { if depth > 1 { ScanWalk(x[1..], y, depth - 1, false); } }
      else { ScanWalk(x[1..], y, depth, false); }
    }
  }

  lemma {:induction false} WalkPlain(x: string, depth: nat)
    requires depth > 0 && Lacks(x, '"') && Lacks(x, '[') && Lacks(x, ']')
    ensures Walk(x, depth, false) == At(depth, false)
  {
    if x != [] { WalkPlain(x[1..], depth); }
  }

  lemma {:induction false} WalkInQuotes(x: string, depth: nat)
    requires depth > 0 && Lacks(x, '"')
    ensures Walk(x, depth, true) == At(depth, true)
  {
    if x != [] { WalkInQuotes(x[1..], depth); }
  }

  /** Single quotes around a text are nothing to the walk. */
  lemma WalkSingleQuoted(x: string)
    ensures Walk("'" + x + "'", 1, false) == Walk(x, 1, false)
  {
    assert "'" + x + "'" == "'" + (x + "'");
    WalkPlain("'", 1);
    WalkAppend("'", x + "'", 1, false);
    WalkAppend(x, "'", 1, false);
    var w := Walk(x, 1, false);
    if w.At? {
      AtIsDeep(x, 1, false);
      assert "'"[1..] == "";
    }
  }

  lemma {:induction false} AtIsDeep(x: string, depth: nat, inQ: bool)
    ensures Walk(x, depth, inQ).At? ==> Walk(x, depth, inQ).depth > 0
  {
    if depth > 0 && x != [] {
      if inQ { AtIsDeep(x[1..], depth, x[0] != '"'); }
      else if x[0] == '"' { AtIsDeep(x[1..], depth, true); }
      else if x[0] == '[' { AtIsDeep(x[1..], depth + 1, false); }
      else if x[0] == ']' { AtIsDeep(x[1..], depth - 1, false); }
      else { AtIsDeep(x[1..], depth, false); }
    }
  }

  /** What an element must be so that it leaves the walk where it was: always, in double quotes. */
  predicate ElemBalanced(e: Elem) {
    e.quote == '\'' ==> Balanced(e.item)
  }

  lemma ElemWalk(e: Elem)
    requires ElemOk(e) && ElemBalanced(e)
    ensures Balanced(ElemText(e))
  {
    var quoted := [e.quote] + e.item + [e.quote];
    var sep := e.after + if e.comma then "," else "";
    assert ElemText(e) == e.before + (quoted + sep);
    WalkPlain(e.before, 1);
    WalkPlain(sep, 1);
    assert Balanced(quoted) by {
      if e.quote == '"' {
        assert quoted == "\"" + (e.item + "\"");
        WalkInQuotes(e.item, 1);
        assert "\""[1..] == "";
        WalkAppend("\"", e.item + "\"", 1, false);
        WalkAppend(e.item, "\"", 1, true);
      } else {
        assert quoted == "'" + e.item + "'";
        WalkSingleQuoted(e.item);
      }
    }
    WalkAppend(quoted, sep, 1, false);
    WalkAppend(e.before, quoted + sep, 1, false);
  }

  /** Elements that are balanced one by one make a balanced array. */
  lemma {:induction false} BalancedElems(es: seq<Elem>, last: string)
    requires Rest(es, last) && forall e :: e in es ==> ElemBalanced(e)
    ensures Balanced(ElemsText(es) + last)
  {
    if es == [] {
      assert ElemsText(es) + last == last;
      WalkPlain(last, 1);
    } else {
      assert es[0] in es;
      assert ElemsText(es) + last == ElemText(es[0]) + (ElemsText(es[1..]) + last);
      ElemWalk(es[0]);
      BalancedElems(es[1..], last);
      WalkAppend(ElemText(es[0]), ElemsText(es[1..]) + last, 1, false);
    }
  }

  /** The bracket scan stops at the array's own bracket in front of every text, if and only if the
      text between the brackets is balanced. */
  lemma ScanBody(body: string)
    ensures (forall y :: Scan(body + ("]" + y), 1, false) == |body| + 1) <==> Balanced(body)
  {
    var w := Walk(body, 1, false);
    if Balanced(body) {
      forall y ensures Scan(body + ("]" + y), 1, false) == |body| + 1 {
        ScanWalk(body, "]" + y, 1, false);
        assert ("]" + y)[1..] == y;
      }
    } else {
      ScanWalk(body, "]" + TELLTALE, 1, false);
      if w.At? {
        AtIsDeep(body, 1, false);
        TelltaleScan(w.depth, w.inQ);
      }
    }
  }

  /** What a scan that is not at home after a closing bracket runs over to its end, and an array
      reader finds an item in. */
  const TELLTALE := "\"\"]"

  lemma TelltaleScan(depth: nat, inQ: bool)
    requires depth > 0 && !(depth == 1 && !inQ)
    ensures Scan("]" + TELLTALE, depth, inQ) == 4
  {
    var t3, t2, t1, t0 := "]", "\"]", "\"\"]", "]\"\"]";
    assert t0 == "]" + TELLTALE;
    assert t3[1..] == "" && t2[1..] == t3 && t1[1..] == t2 && t0[1..] == t1;
    var d := if inQ then depth else depth - 1;
    assert Scan(t3, d, inQ) == 1 && Scan(t2, d, !inQ) == 2 && Scan(t1, d, inQ) == 3;
  }

  lemma {:induction false} SepLenPadded(w: string, y: string)
    requires AllWs(w)
    ensures SepLen(w + y) == |w| + SepLen(y)
  {
    if w == [] {
      assert w + y == y;
    } else {
      assert (w + y)[1..] == w[1..] + y;
      SepLenPadded(w[1..], y);
    }
  }

  /** One round on padded text: the same item, and the same place to go on from, except that
      the stray-byte guard may stop after the padding alone. */
  lemma RoundSkipsWs(w: string, y: string)
    requires AllWs(w) && w != [] && LeadWs(y) < |y|
    ensures LeadWs(w + y) < |w + y|
    ensures var rest := (w + y)[ItemStep(w + y)..];
            || (ItemHere(w + y) == ItemHere(y) && rest == y[ItemStep(y)..])
            || (ItemHere(w + y) == [] && rest == y)
  {
    hide SepLen, Find, LeadWs, QuotedLen;
    LeadWsPadded(w, y);
    var s, lead := w + y, LeadWs(y);
    assert s[|w| + lead] == y[lead];
    Prefixed(w, y, lead + 1);
    if IsQuote(y[lead]) {
      Prefixed(w, y, lead + 1 + QuotedLen(y[lead + 1..], y[lead]));
      assert ItemStep(s) == |w| + ItemStep(y);
      Prefixed(w, y, ItemStep(y));
    } else {
      Prefixed(w, y, lead);
      var p := lead + SepLen(y[lead..]);
      assert ItemStep(s) == |w| + p;
      Prefixed(w, y, p);
      if p == 0 { assert y[0..] == y; }
    }
  }

  /** Leading whitespace does not change the items. */
  lemma ItemsSkipWs(w: string, y: string)
    requires AllWs(w)
    ensures Items(w + y) == Items(y)
  {
    hide ItemHere, ItemStep;
    if w == [] {
      assert w + y == y;
    } else if LeadWs(y) < |y| {
      RoundSkipsWs(w, y);
      ItemsRound(w + y);
      ItemsRound(y);
    } else {
      LeadWsPadded(w, y);
    }
  }

  lemma Prefixed(w: string, y: string, i: nat)
    requires i <= |y|
    ensures (w + y)[|w| + i..] == y[i..]
  {
  }

  /** What can follow an element: more elements or the whitespace before the closing bracket. */
  predicate Rest(es: seq<Elem>, last: string) {
    (forall e :: e in es ==> ElemOk(e)) && AllWs(last)
  }

  lemma SkipToNext(es: seq<Elem>, last: string)
    requires Rest(es, last)
    ensures var tail := ElemsText(es) + last;
            Items(tail[SepLen(tail)..]) == Items(tail)
  {
    hide Items;
    var tail := ElemsText(es) + last;
    if es != [] { assert es[0] in es; }
    var w := if es == [] then last else es[0].before;
    var y := if es == [] then "" else [es[0].quote] + tail[|w| + 1..];
    assert tail == w + y;
    SepLenPadded(w, y);
    assert SepLen(tail) == |w| && tail[|w|..] == y;
    ItemsSkipWs(w, y);
  }

  lemma QuotedPrefix(e: Elem, y: string)
    requires ElemOk(e)
    ensures var t := e.item + [e.quote] + y;
            Find(t, e.quote) == |e.item| && QuotedLen(t, e.quote) == |e.item| + 1
  {
    var t := e.item + [e.quote] + y;
    assert forall i :: 0 <= i < |e.item| ==> t[i] == e.item[i];
    FindFirst(t, e.quote, |e.item|);
  }

  lemma QuotedRound(e: Elem, after: string)
    requires ElemOk(e)
    ensures var s := [e.quote] + (e.item + [e.quote] + after);
            LeadWs(s) == 0 && ItemHere(s) == [e.item] && s[ItemStep(s)..] == after[SepLen(after)..]
  {
    hide SepLen, Find;
    var t := e.item + [e.quote] + after;
    var s := [e.quote] + t;
    QuotedPrefix(e, after);
    assert LeadWs(s) == 0;
    assert s[1..] == t && t[..|e.item|] == e.item;
    assert s[|e.item| + 2..] == after;
    assert ItemStep(s) == |e.item| + 2 + SepLen(after);
    Suffix(s, |e.item| + 2, SepLen(after));
  }

  lemma ItemsOfElem(e: Elem, es: seq<Elem>, last: string)
    requires ElemOk(e) && Rest(es, last)
    ensures var tail := ElemsText(es) + last;
            Items(ElemText(e) + tail) == [e.item] + Items(tail)
  {
    hide Items, ItemHere, ItemStep, SepLen;
    var tail := ElemsText(es) + last;
    var after := e.after + (if e.comma then "," else "") + tail;
    var s := [e.quote] + (e.item + [e.quote] + after);
    assert ElemText(e) + tail == e.before + s;
    ItemsSkipWs(e.before, s);
    QuotedRound(e, after);
    ItemsRound(s);
    AfterElem(e, es, last);
  }

  /** Past the separator of an element only the rest of the array is left. */
  lemma AfterElem(e: Elem, es: seq<Elem>, last: string)
    requires ElemOk(e) && Rest(es, last)
    ensures var tail := ElemsText(es) + last;
            var after := e.after + (if e.comma then "," else "") + tail;
            Items(after[SepLen(after)..]) == Items(tail)
  {
    hide Items;
    var tail := ElemsText(es) + last;
    var after := e.after + (if e.comma then "," else "") + tail;
    if e.comma {
      assert after == e.after + ("," + tail);
      SepLenPadded(e.after, "," + tail);
      assert after[SepLen(after)..] == tail;
    } else {
      assert after == e.after + tail;
      SepLenPadded(e.after, tail);
      assert after[SepLen(after)..] == tail[SepLen(tail)..];
      SkipToNext(es, last);
    }
  }

  lemma NoItems()
    ensures Items("") == []
  {
  }

  lemma {:induction false} ItemsOfBody(es: seq<Elem>, last: string)
    requires Rest(es, last)
    ensures Items(ElemsText(es) + last) == ItemsOf(es)
  {
    hide Items, ElemText, ElemOk;
    if es == [] {
      assert ElemsText(es) + last == last + "";
      ItemsSkipWs(last, "");
      NoItems();
    } else {
      assert es[0] in es;
      assert ElemsText(es) + last == ElemText(es[0]) + (ElemsText(es[1..]) + last);
      ItemsOfElem(es[0], es[1..], last);
      ItemsOfBody(es[1..], last);
      assert ItemsOf(es) == [es[0].item] + ItemsOf(es[1..]);
    }
  }

  lemma {:induction false} BodyHasNoNul(es: seq<Elem>, last: string)
    requires Rest(es, last)
    ensures NUL !in ElemsText(es) + last
  {
    if es != [] {
      assert es[0] in es;
      assert ElemsText(es) + last == ElemText(es[0]) + (ElemsText(es[1..]) + last);
      BodyHasNoNul(es[1..], last);
    }
  }

  /** An array reads back as its items: brackets, commas and `#` inside items included. */
  lemma ArrayReadsBack(es: seq<Elem>, last: string)
    requires Rest(es, last)
    ensures StrArray("[" + (ElemsText(es) + last) + "]") == ItemsOf(es)
  {
    var body := ElemsText(es) + last;
    var s := "[" + body + "]";
    assert BodyEnd(s, |s|) == |s| - 1;
    assert s[1..|s| - 1] == body;
    ItemsOfBody(es, last);
  }

  // ---- Lines -----------------------------------------------------------------------------

  lemma LackingFind(s: string, c: char)
    requires Lacks(s, c)
    ensures Find(s, c) == |s|
  {
    FindFirst(s, c, |s|);
  }

  /** A line without its newline is what precedes the first newline. */
  lemma EolAt(line: string, rest: string)
    requires Lacks(line, '\n')
    ensures Find(line + "\n" + rest, '\n') == |line|
    ensures (line + "\n" + rest)[..|line|] == line
  {
    assert line + "\n" + rest == line + ("\n" + rest);
    LackingFind(line, '\n');
    FindInPrefix(line, "\n" + rest, '\n');
  }

  /** Indentation is dropped and parsing goes on after the line's last byte. */
  lemma CoreParse(indent: string, core: string, rest: string, st: PState)
    requires PolicySpec.Valid(st) && AllBlank(indent)
    requires core != [] && !IsBlank(core[0]) && LineLen(core + rest) == |core| - 1
    ensures Parse(indent + core + rest, st) == Parse(rest, LineEffect(core + rest, st))
  {
    hide LineLen, LineEffect;
    assert indent + core + rest == indent + (core + rest);
    LeadBlankPadded(indent, core + rest);
    DropAppend(core, rest);
  }

  lemma HeaderBody(left: string, name: string, right: string, tail: string)
    requires PadOk(left) && PadOk(right) && Tight(name) && NUL !in name && Lacks(name, ']')
    ensures var body := left + name + right + "]" + tail;
            CStr(Trim(body[..Find(body, ']')])) == name
  {
    hide Trim, CStr, Find;
    var pad := left + name + right;
    var body := pad + "]" + tail;
    assert body == pad + ("]" + tail);
    LackingFind(pad, ']');
    FindInPrefix(pad, "]" + tail, ']');
    assert Find("]" + tail, ']') == 0 by { FindFirst("]" + tail, ']', 0); }
    assert body[..|pad|] == pad;
    TrimPadded(left, name, right);
    CStrWhole(name);
  }

  lemma HeaderCore(l: Line, rest: string, st: PState)
    requires l.HeaderLine? && LineOk(l) && PolicySpec.Valid(st)
    ensures var t := CoreText(l) + rest;
            LineLen(t) == |CoreText(l)| - 1 && LineEffect(t, st) == Enter(st, l.name)
  {
    hide Trim, CStr, Find, Enter;
    var open := if l.double then "[[" else "[";
    var body := l.left + l.name + l.right + "]" + l.tail;
    var line := open + body;
    var t := CoreText(l) + rest;
    assert t == line + "\n" + rest;
    assert Lacks(line, '\n');
    EolAt(line, rest);
    assert line[|open|..] == body;
    assert l.double <==> line[1] == '[' by {
      assert line[1] == if l.double then '[' else body[0];
    }
    HeaderBody(l.left, l.name, l.right, l.tail);
  }

  /** The key of an entry line. */
  lemma KeyPart(key: string, pad: string, more: string)
    requires KeyOk(key) && PadOk(pad)
    ensures var t := key + pad + "=" + more;
            var eol := Find(t, '\n');
            && eol == |key + pad| + 1 + Find(more, '\n')
            && Find(t[..eol], '=') == |key + pad|
            && CStr(Trim(t[..|key + pad|])) == key
            && t[|key + pad| + 1..] == more
  {
    hide Trim, CStr;
    var k := key + pad;
    var t := k + "=" + more;
    var kq := k + "=";
    LackingFind(kq, '\n');
    FindInPrefix(kq, more, '\n');
    var m := more[..Find(more, '\n')];
    assert t[..|kq| + |m|] == k + ("=" + m);
    LackingFind(k, '=');
    FindInPrefix(k, "=" + m, '=');
    assert t[..|k|] == "" + key + pad;
    TrimPadded("", key, pad);
    CStrWhole(key);
  }

  lemma {:induction false} CommentAfter(a: string, b: string, q: bool)
    requires CommentAt(a, q) == |a|
    ensures CommentAt(a + b, q) == |a| + CommentAt(b, InStr(a, q))
  {
    if a == [] {
      assert a + b == b;
    } else {
      assert (a + b)[1..] == a[1..] + b;
      CommentAfter(a[1..], b, if a[0] == '"' then !q else q);
    }
  }

  lemma {:induction false} PadKeepsQuotes(w: string, q: bool)
    requires AllWs(w)
    ensures CommentAt(w, q) == |w| && InStr(w, q) == q
  {
    if w != [] { PadKeepsQuotes(w[1..], q); }
  }

  lemma CommentStarts(comment: Option<string>, q: bool)
    requires comment.Some? ==> !q
    ensures CommentAt(CommentText(comment), q) == 0
  {
  }

  /** The scalar scan stops where the comment starts. */
  lemma CommentPart(a: string, v: string, b: string, comment: Option<string>)
    requires AllWs(a) && AllWs(b) && ValueOk(v, comment)
    ensures CommentAt(a + v + b + CommentText(comment), false) == |a + v + b|
  {
    hide CommentAt, InStr, AllWs, CommentText, Lacks, Tight;
    var c := CommentText(comment);
    assert a + v + b + c == a + (v + (b + c));
    CommentStarts(comment, InStr(v, false));
    PadKeepsQuotes(a, false);
    CommentAfter(a, v + (b + c), false);
    CommentAfter(v, b + c, false);
    PadKeepsQuotes(b, InStr(v, false));
    CommentAfter(b, c, InStr(v, false));
  }

  lemma ScalarValue(l: Line, rest: string)
    requires l.ScalarLine? && LineOk(l)
    ensures var pad := l.afterEq + l.value + l.afterValue;
            var line := pad + CommentText(l.comment);
            var after := line + "\n" + rest;
            && !ArrayNext(after) && Find(after, '\n') == |line| && after[..|line|] == line
            && CStr(Trim(line[..CommentAt(line, false)])) == l.value
  {
    hide Trim, CStr, Find, LeadBlank, CommentAt, InStr, AllWs, Tight;
    var pad := l.afterEq + l.value + l.afterValue;
    var line := pad + CommentText(l.comment);
    var after := line + "\n" + rest;
    ScalarPads(l);
    EolAt(line, rest);
    var tail := l.value + l.afterValue + CommentText(l.comment) + "\n" + rest;
    assert after == l.afterEq + tail;
    LeadBlankPadded(l.afterEq, tail);
    assert after[|l.afterEq|] == tail[0];
    CommentPart(l.afterEq, l.value, l.afterValue, l.comment);
    assert line[..|pad|] == pad;
    TrimPadded(l.afterEq, l.value, l.afterValue);
    CStrWhole(l.value);
  }

  lemma ScalarPads(l: Line)
    requires l.ScalarLine? && LineOk(l)
    ensures AllWs(l.afterEq) && AllWs(l.afterValue) && Tight(l.value)
    ensures Lacks(l.afterEq + l.value + l.afterValue + CommentText(l.comment), '\n')
    ensures forall rest :: var tail := l.value + l.afterValue + CommentText(l.comment) + "\n" + rest;
              !IsBlank(tail[0]) && tail[0] != '['
  {
    hide CommentAt, InStr;
  }

  /** The entry that a scalar line is read as. */
  lemma ScalarEntry(l: Line, rest: string)
    requires l.ScalarLine? && LineOk(l)
    ensures EntryAt(CoreText(l) + rest) == Entry(|CoreText(l)| - 1, l.key, l.value)
  {
    hide ArrayNext, Trim, CStr, CommentAt, Find, AllBlank, AllWs, Lacks, Tight, KeyOk, PadOk, ValueOk;
    var line := l.afterEq + l.value + l.afterValue + CommentText(l.comment);
    var after := line + "\n" + rest;
    var t := CoreText(l) + rest;
    assert t == l.key + l.beforeEq + "=" + after;
    KeyPart(l.key, l.beforeEq, after);
    ScalarValue(l, rest);
  }

  lemma ScalarCore(l: Line, rest: string, st: PState)
    requires l.ScalarLine? && LineOk(l) && PolicySpec.Valid(st)
    ensures var t := CoreText(l) + rest;
            LineLen(t) == |CoreText(l)| - 1 && LineEffect(t, st) == Assign(st, l.key, l.value)
  {
    ScalarEntry(l, rest);
    hide Assign, EntryAt, AllBlank, AllWs, Lacks, Tight, ValueOk;
    NotSkipped(l.key, CoreText(l) + rest);
  }

  lemma ArrayValue(afterEq: string, es: seq<Elem>, last: string, more: string)
    requires AllBlank(afterEq) && Rest(es, last) && Balanced(ElemsText(es) + last)
    ensures var text := "[" + (ElemsText(es) + last) + "]";
            var after := afterEq + text + more;
            && ArrayNext(after) && ValueLen(after, 0) == |afterEq + text|
            && ValueRaw(after, 0) == text
  {
    hide Trim, CStr, Scan, Walk;
    var body := ElemsText(es) + last;
    var text := "[" + body + "]";
    var after := afterEq + text + more;
    assert after == afterEq + (text + more);
    LeadBlankPadded(afterEq, text + more);
    assert after[|afterEq| + 1..] == body + ("]" + more);
    ScanBody(body);
    assert after[..|afterEq + text|] == afterEq + text + "";
    TrimPadded(afterEq, text, "");
    BodyHasNoNul(es, last);
    assert NUL !in text;
    CStrWhole(text);
  }

  /** In front of every text the entry's array value is `text`, no more and no less, with these items. */
  ghost predicate ReadsAs(text: string, items: seq<string>) {
    forall y :: ValueLen(text + y, 0) == |text| && StrArray(ValueRaw(text + y, 0)) == items
  }

  /** An array of quoted items reads back in front of every text, if and only if it is balanced. */
  lemma ArrayReadsBackExactly(es: seq<Elem>, last: string)
    requires Rest(es, last)
    ensures ReadsAs("[" + (ElemsText(es) + last) + "]", ItemsOf(es)) <==> Balanced(ElemsText(es) + last)
  {
    hide Walk, Scan, StrArray, Trim, CStr, Rest, ItemsOf, ElemsText;
    var body := ElemsText(es) + last;
    var text := "[" + body + "]";
    ScanBody(body);
    if Balanced(body) {
      forall y ensures ValueLen(text + y, 0) == |text| && StrArray(ValueRaw(text + y, 0)) == ItemsOf(es) {
        ArrayValue("", es, last, y);
        assert "" + text == text;
        ArrayReadsBack(es, last);
      }
    } else {
      var y :| Scan(body + ("]" + y), 1, false) != |body| + 1;
      assert LeadBlank(text + y) == 0 && (text + y)[1..] == body + ("]" + y);
      assert ValueLen(text + y, 0) != |text|;
    }
  }

  /** For a key that is not a scalar key, assigning an array text is assigning its items. */
  lemma AssignArray(st: PState, key: string, raw: string)
    requires PolicySpec.Valid(st) && !ScalarKey(key)
    ensures Assign(st, key, raw) == AssignList(st, key, StrArray(raw))
  {
    hide StrArray, BoolOf, IntOf, Unquote;
  }

  lemma NotSkipped(key: string, t: string)
    requires KeyOk(key) && t != [] && t[0] == key[0]
    ensures !Skipped(t) && t[0] != '['
  {
  }

  /** The entry that an array line is read as. */
  lemma ArrayEntry(l: Line, rest: string)
    requires l.ArrayLine? && LineOk(l)
    ensures var text := "[" + (ElemsText(l.elems) + l.last) + "]";
            EntryAt(CoreText(l) + rest) == Entry(|CoreText(l)| - 1, l.key, text)
  {
    hide Trim, CStr, Find, ArrayNext, AllBlank, AllWs, ElemOk, ScalarKey, ElemsText, Lacks, Tight, Balanced, Rest;
    hide KeyOk, PadOk, ValueLen, ValueRaw;
    var text := "[" + (ElemsText(l.elems) + l.last) + "]";
    var after := l.afterEq + text + ([l.next] + rest);
    var t := CoreText(l) + rest;
    assert t == l.key + l.beforeEq + "=" + after;
    KeyPart(l.key, l.beforeEq, after);
    ArrayValue(l.afterEq, l.elems, l.last, [l.next] + rest);
    ValueEol(after, Find(t, '\n') - |l.key + l.beforeEq| - 1);
  }

  /** Where an array value ends does not depend on where its first line does. */
  lemma ValueEol(after: string, eol: nat)
    requires ArrayNext(after) && eol <= |after|
    ensures ValueLen(after, eol) == ValueLen(after, 0) && ValueRaw(after, eol) == ValueRaw(after, 0)
  {
    hide Trim, CStr, Scan, CommentAt;
  }

  lemma ArrayCore(l: Line, rest: string, st: PState)
    requires l.ArrayLine? && LineOk(l) && PolicySpec.Valid(st)
    ensures var t := CoreText(l) + rest;
            && LineLen(t) == |CoreText(l)| - 1
            && LineEffect(t, st) == AssignList(st, l.key, ItemsOf(l.elems))
  {
    ArrayEntry(l, rest);
    hide Assign, AssignList, AllBlank, AllWs, ElemOk, ScalarKey, ItemsOf, ElemsText, EntryAt;
    hide StrArray, Lacks, Tight, Balanced;
    var t := CoreText(l) + rest;
    NotSkipped(l.key, t);
    ArrayReadsBack(l.elems, l.last);
    AssignArray(st, l.key, "[" + (ElemsText(l.elems) + l.last) + "]");
  }

  lemma CommentCore(mark: char, text: string, rest: string, st: PState)
    requires (mark == '#' || mark == '\r') && Lacks(text, '\n') && PolicySpec.Valid(st)
    ensures var core := [mark] + text + "\n";
            LineLen(core + rest) == |core| - 1 && LineEffect(core + rest, st) == st
  {
    var line := [mark] + text;
    assert [mark] + text + "\n" + rest == line + "\n" + rest;
    EolAt(line, rest);
  }

  /** One laid-out line, followed by anything at all, has its meaning and nothing else. */
  lemma LineParse(l: Line, rest: string, st: PState)
    requires LineOk(l) && PolicySpec.Valid(st)
    ensures Parse(l.indent + CoreText(l) + rest, st) == Parse(rest, LineMeaning(l, st))
  {
    hide LineLen, LineEffect, Parse;
    match l {
      case BlankLine(_) => BlankCore(rest, st);
      case CommentLine(_, mark, text) => CommentCore(mark, text, rest, st);
      case HeaderLine(_, _, _, _, _, _) => HeaderCore(l, rest, st);
      case ScalarLine(_, _, _, _, _, _, _) => ScalarCore(l, rest, st);
      case ArrayLine(_, _, _, _, _, _, _) => ArrayCore(l, rest, st);
    }
    CoreParse(l.indent, CoreText(l), rest, st);
  }

  lemma BlankCore(rest: string, st: PState)
    requires PolicySpec.Valid(st)
    ensures LineLen("\n" + rest) == 0 && LineEffect("\n" + rest, st) == st
  {
  }

  /** THE LAYOUT LAW.  A file of well-formed lines parses to the meaning of those lines, and
      parsing goes on from there with whatever follows. */
  lemma {:induction false} LinesParse(ls: seq<Line>, rest: string, st: PState)
    requires (forall l :: l in ls ==> LineOk(l)) && PolicySpec.Valid(st)
    ensures Parse(LinesText(ls) + rest, st) == Parse(rest, Meaning(ls, st))
    decreases |ls|
  {
    hide Parse, LineMeaning, CoreText;
    if ls == [] {
      assert LinesText(ls) + rest == rest;
    } else {
      assert ls[0] in ls;
      var more := LinesText(ls[1..]) + rest;
      assert LinesText(ls) + rest == ls[0].indent + CoreText(ls[0]) + more;
      LineParse(ls[0], more, st);
      LinesParse(ls[1..], rest, LineMeaning(ls[0], st));
    }
  }

  predicate IsLayout(l: Line) { l.BlankLine? || l.CommentLine? }

  lemma {:induction false} MeaningAppend(a: seq<Line>, b: seq<Line>, st: PState)
    requires PolicySpec.Valid(st)
    ensures Meaning(a + b, st) == Meaning(b, Meaning(a, st))
    decreases |a|
  {
    if a == [] {
      assert a + b == b;
    } else {
      assert (a + b)[1..] == a[1..] + b;
      MeaningAppend(a[1..], b, LineMeaning(a[0], st));
    }
  }

  lemma {:induction false} LayoutMeansNothing(ls: seq<Line>, st: PState)
    requires (forall l :: l in ls ==> IsLayout(l)) && PolicySpec.Valid(st)
    ensures Meaning(ls, st) == st
    decreases |ls|
  {
    if ls != [] {
      assert ls[0] in ls;
      LayoutMeansNothing(ls[1..], st);
    }
  }

  /** Blank and comment lines between entries leave the whole parsed policy unchanged, even when
      what follows them is not laid out by the grammar at all. */
  lemma InsertedLinesChangeNothing(before: seq<Line>, inserted: seq<Line>, rest: string)
    requires forall l :: l in before ==> LineOk(l)
    requires forall l :: l in inserted ==> LineOk(l) && IsLayout(l)
    ensures ParsePolicy(LinesText(before + inserted) + rest) == ParsePolicy(LinesText(before) + rest)
  {
    hide Parse, Meaning, LinesText;
    LinesParse(before + inserted, rest, START);
    LinesParse(before, rest, START);
    MeaningAppend(before, inserted, START);
    LayoutMeansNothing(inserted, Meaning(before, START));
  }

  // ---- Laws of every text, well laid out or not ------------------------------------------

  /** Entries before the first header, and under a header that names neither table, change nothing. */
  lemma {:induction false} OtherSectionsIgnored(h: Line, es: seq<Line>, st: PState)
    requires h.HeaderLine? && h.name != "defaults" && h.name != "rules" && PolicySpec.Valid(st)
    requires forall e :: e in es ==> !e.HeaderLine?
    ensures Meaning(es, st.(section := NoSection)) == st.(section := NoSection)
    ensures Meaning([h] + es, st) == st.(section := NoSection)
  {
    assert ([h] + es)[1..] == es;
    if es != [] {
      assert es[0] in es && forall e :: e in es[1..] ==> e in es;
      OtherSectionsIgnored(h, es[1..], st);
    }
  }

  lemma {:induction false} LeadBlankAtEnd(s: string)
    ensures LeadBlank(s + "\n") == LeadBlank(s)
  {
    if s != "" && IsBlank(s[0]) {
      assert (s + "\n")[1..] == s[1..] + "\n";
      LeadBlankAtEnd(s[1..]);
    }
  }

  lemma {:induction false} LeadWsAtEnd(s: string)
    ensures LeadWs(s + "\n") == if LeadWs(s) < |s| then LeadWs(s) else |s| + 1
  {
    if s == "" {
      assert LeadWs(("\n")[1..]) == 0;
    } else if IsWs(s[0]) {
      assert (s + "\n")[1..] == s[1..] + "\n";
      LeadWsAtEnd(s[1..]);
    }
  }

  lemma TrimAtEnd(s: string)
    ensures Trim(s + "\n") == Trim(s)
  {
    LeadWsAtEnd(s);
    if LeadWs(s) < |s| {
      var t := s[LeadWs(s)..];
      assert (s + "\n")[LeadWs(s)..] == t + "\n";
      KeepLenPadded(t, "\n");
      assert (t + "\n")[..KeepLen(t)] == t[..KeepLen(t)];
    }
  }

  /** One more newline either lies behind the closing bracket or joins an unclosed array. */
  lemma {:induction false} ScanAtEnd(x: string, depth: nat, inQ: bool)
    ensures var n := Scan(x, depth, inQ);
            Scan(x + "\n", depth, inQ) == n || (n == |x| && Scan(x + "\n", depth, inQ) == n + 1)
  {
    if x == "" {
      assert (x + "\n")[1..] == "";
    } else if depth > 0 {
      assert (x + "\n")[1..] == x[1..] + "\n";
      if inQ { ScanAtEnd(x[1..], depth, x[0] != '"'); }
      else if x[0] == '"' { ScanAtEnd(x[1..], depth, true); }
      else if x[0] == '[' { ScanAtEnd(x[1..], depth + 1, false); }
      else if x[0] == ']' { ScanAtEnd(x[1..], depth - 1, false); }
      else { ScanAtEnd(x[1..], depth, false); }
    }
  }

  lemma FindAtEnd(t: string)
    ensures Find(t + "\n", '\n') == Find(t, '\n')
    ensures (t + "\n")[..Find(t, '\n')] == t[..Find(t, '\n')]
  {
    FindInPrefix(t, "\n", '\n');
    assert Find("\n", '\n') == 0;
  }

  lemma ValueAtEnd(after: string, eol: nat)
    requires eol <= |after|
    ensures ValueRaw(after + "\n", eol) == ValueRaw(after, eol)
    ensures || ValueLen(after + "\n", eol) == ValueLen(after, eol)
            || (ValueLen(after, eol) == |after| && ValueLen(after + "\n", eol) == |after| + 1)
  {
    hide Trim, CStr, Scan, LeadBlank, CommentAt;
    LeadBlankAtEnd(after);
    var v := LeadBlank(after);
    assert ArrayNext(after + "\n") <==> ArrayNext(after);
    if ArrayNext(after) {
      var x := after[v + 1..];
      assert (after + "\n")[v + 1..] == x + "\n";
      ScanAtEnd(x, 1, false);
      var n := ValueLen(after, eol);
      assert (after + "\n")[..n] == after[..n];
      if ValueLen(after + "\n", eol) == |after| + 1 {
        assert (after + "\n")[..|after| + 1] == after + "\n" && after[..|after|] == after;
        TrimAtEnd(after);
      }
    } else {
      assert (after + "\n")[..eol] == after[..eol];
    }
  }

  /** A final newline changes neither what a line does nor, except inside an unclosed array that
      reaches the end anyway, how long it is. */
  lemma LineAtEnd(t: string, st: PState)
    requires t != "" && PolicySpec.Valid(st)
    ensures LineEffect(t + "\n", st) == LineEffect(t, st)
    ensures || LineLen(t + "\n") == LineLen(t)
            || (LineLen(t) == |t| && LineLen(t + "\n") == |t| + 1)
  {
    hide Find, HeaderName, ValueRaw, ValueLen, Trim, CStr;
    var t' := t + "\n";
    assert t'[0] == t[0];
    FindAtEnd(t);
    var eol := Find(t, '\n');
    var eq := Find(t[..eol], '=');
    if eq < eol {
      var after := t[eq + 1..];
      assert t'[eq + 1..] == after + "\n" && t'[..eq] == t[..eq];
      ValueAtEnd(after, eol - eq - 1);
    }
  }

  /** One line of parsing, by the text behind the indentation. */
  lemma ParseStep(s: string, t: string, st: PState)
    requires PolicySpec.Valid(st) && t == s[LeadBlank(s)..]
    ensures Parse(s, st) == if t == "" then st else Parse(Drop(t, LineLen(t) + 1), LineEffect(t, st))
  {
    hide LineLen, LineEffect, LeadBlank, Drop;
  }

  lemma DropAtEnd(t: string, n: nat)
    ensures n < |t| ==> Drop(t + "\n", n + 1) == Drop(t, n + 1) + "\n"
    ensures n >= |t| ==> Drop(t, n + 1) == "" && Drop(t + "\n", n + 1) == ""
    ensures t != "" ==> |Drop(t, n + 1)| < |t|
  {
  }

  /** A missing newline at the end of the file never matters: for every text, laid out well or not,
      unclosed arrays and stray bytes included. */
  lemma {:induction false} FinalNewlineOptional(s: string, st: PState)
    requires PolicySpec.Valid(st)
    ensures Parse(s + "\n", st) == Parse(s, st)
    decreases |s|
  {
    hide LineLen, LineEffect, LeadBlank, Drop, Parse;
    LeadBlankAtEnd(s);
    var t := s[LeadBlank(s)..];
    assert (s + "\n")[LeadBlank(s)..] == t + "\n";
    ParseStep(s, t, st);
    ParseStep(s + "\n", t + "\n", st);
    if t == "" {
      BlankCore("", st);
      assert "" + "\n" == "\n" + "" == "\n";
      DropAtEnd("", 0);
      ParseNil(st);
    } else {
      LineAtEnd(t, st);
      var n := LineLen(t);
      DropAtEnd(t, n);
      DropAtEnd(t, LineLen(t + "\n"));
      if n < |t| { FinalNewlineOptional(Drop(t, n + 1), LineEffect(t, st)); }
    }
  }

  lemma ParseNil(st: PState)
    requires PolicySpec.Valid(st)
    ensures Parse("", st) == st
  {
  }

  // ---- Single quotes ---------------------------------------------------------------------

  /** An array text that is read as far as its last byte: its items are those between the brackets. */
  lemma WholeArray(body: string)
    requires NUL !in body
    ensures var text := "[" + body + "]";
            CStr(Trim(text)) == text && StrArray(text) == Items(body)
  {
    hide Trim, CStr, Items;
    var text := "[" + body + "]";
    assert "" + text + "" == text;
    TrimPadded("", text, "");
    CStrWhole(text);
    assert BodyEnd(text, |text|) == |text| - 1 && text[1..|text| - 1] == body;
  }

  /** The array value of an entry whose text after the bracket is `more`. */
  lemma ArrayRaw(more: string)
    ensures ValueLen("[" + more, 0) == 1 + Scan(more, 1, false)
    ensures ValueRaw("[" + more, 0) == CStr(Trim("[" + more[..Scan(more, 1, false)]))
  {
    hide Trim, CStr, Scan;
    var t := "[" + more;
    assert LeadBlank(t) == 0 && t[1..] == more;
    assert t[..1 + Scan(more, 1, false)] == "[" + more[..Scan(more, 1, false)];
  }

  /** Single quotes do not protect a closing bracket: the array ends there, and what is left of the
      item is lost. */
  lemma SingleQuotedBracketCloses(x: string, y: string)
    requires Lacks(x, '"') && Lacks(x, '[') && Lacks(x, ']') && Lacks(x, '\'') && NUL !in x
    ensures ValueRaw("['" + x + "]" + y, 0) == "['" + x + "]"
    ensures StrArray("['" + x + "]") == [x]
  {
    hide Trim, CStr, Items, Scan, StrArray, ValueRaw, ValueLen;
    var body := "'" + x;
    var more := body + ("]" + y);
    assert "[" + more == "['" + x + "]" + y && "[" + body + "]" == "['" + x + "]";
    ArrayRaw(more);
    WalkPlain(body, 1);
    ScanBody(body);
    assert "[" + more[..|body| + 1] == "[" + body + "]";
    WholeArray(body);
    OpenQuote(x);
  }

  /** An item whose closing quote is missing runs to the end of the text. */
  lemma OpenQuote(x: string)
    requires Lacks(x, '\'')
    ensures Items("'" + x) == [x]
  {
    var s := "'" + x;
    assert LeadWs(s) == 0 && s[1..] == x && x[..|x|] == x;
    LackingFind(x, '\'');
    assert s[|x| + 1..] == "";
    ItemsRound(s);
    assert ItemStep(s) == |s|;
    assert s[|s|..] == "";
    NoItems();
  }

  /** Cut at a bracket inside the item: a shorter item. */
  lemma ClosedInside(x: string)
    requires Lacks(x, '\'') && NUL !in x && Walk(x, 1, false).Closed?
    ensures StrArray(ValueRaw("['" + x + "']", 0)) != [x]
  {
    hide Trim, CStr, Items, Walk, StrArray, Scan, ValueRaw, ValueLen;
    var inner := "'" + x + "'";
    var more := inner + "]";
    assert "[" + more == "['" + x + "']";
    ArrayRaw(more);
    WalkSingleQuoted(x);
    ScanWalk(inner, "]", 1, false);
    var n := Scan(more, 1, false);
    var cut := x[..n - 2];
    assert "[" + more[..n] == "[" + ("'" + cut) + "]";
    WholeArray("'" + cut);
    OpenQuote(cut);
  }

  /** Not at home at the end of the item: a following text is read as more items. */
  lemma RunsOver(x: string)
    requires Lacks(x, '\'') && NUL !in x && Walk(x, 1, false).At? && !Balanced(x)
    ensures StrArray(ValueRaw("['" + x + "']" + TELLTALE, 0)) != [x]
  {
    hide Trim, CStr, Items, Walk, StrArray, Scan, ValueRaw, ValueLen;
    var inner := "'" + x + "'";
    var more := inner + ("]" + TELLTALE);
    var body := inner + "]\"\"";
    var w := Walk(x, 1, false);
    assert "[" + more == "['" + x + "']" + TELLTALE && "[" + more == "[" + body + "]";
    ArrayRaw(more);
    WalkSingleQuoted(x);
    AtIsDeep(x, 1, false);
    ScanWalk(inner, "]" + TELLTALE, 1, false);
    TelltaleScan(w.depth, w.inQ);
    assert more[..|more|] == more;
    WholeArray(body);
    ItemThenMore(x);
  }

  lemma ItemThenMore(x: string)
    requires Lacks(x, '\'') && NUL !in x
    ensures Items("'" + x + "'" + "]\"\"") == [x, ""]
  {
    hide Items, ItemHere, ItemStep;
    var more := "]\"\"";
    var e := Elem("", '\'', x, "", false);
    var s := [e.quote] + (e.item + [e.quote] + more);
    assert "'" + x + "'" + more == s;
    QuotedRound(e, more);
    ItemsRound(s);
    assert more[SepLen(more)..] == more;
    StrayThenItem();
  }

  lemma PlainByte()
    ensures !IsWs(']') && !IsQuote(']')
  {
  }

  lemma NoTextOk()
    ensures ElemOk(Elem("", '"', "", "", false)) && SepLen("") == 0
  {
  }

  lemma StrayThenItem()
    ensures Items("]\"\"") == [""]
  {
    hide *;
    var t := "\"\"";
    assert ['"'] + ("" + ['"'] + "") == t && [']'] + t == "]\"\"";
    PlainByte();
    StrayByte(']', t);
    NoTextOk();
    QuotedRound(Elem("", '"', "", "", false), "");
    assert ""[0..] == "";
    ItemsRound(t);
    NoItems();
  }

  /** A byte that means nothing in an array is passed over. */
  lemma StrayByte(c: char, t: string)
    requires !IsWs(c) && !IsQuote(c) && c != ','
    ensures Items([c] + t) == Items(t)
  {
    var s := [c] + t;
    assert LeadWs(s) == 0 && s[0..] == s && SepLen(s) == 0;
    ItemsRound(s);
    assert ItemStep(s) == 1 && ItemHere(s) == [] && s[1..] == t;
  }

  /** THE REACH OF SINGLE QUOTES in arrays.  A single-quoted item reads back in front of every text if
      and only if its brackets are balanced, none closes before it opened, and each is outside an even
      number of double quotes. */
  lemma SingleQuotedItemExactly(x: string)
    requires Lacks(x, '\'') && NUL !in x
    ensures (forall y :: StrArray(ValueRaw("['" + x + "']" + y, 0)) == [x]) <==> Balanced(x)
  {
    hide Trim, CStr, Items, Walk, StrArray, Scan;
    var text := "['" + x + "']";
    if Balanced(x) {
      var e := Elem("", '\'', x, "", false);
      assert ElemsText([e]) + "" == "'" + x + "'" && text == "[" + (ElemsText([e]) + "") + "]";
      WalkSingleQuoted(x);
      ArrayReadsBackExactly([e], "");
      assert ItemsOf([e]) == [x];
    } else if Walk(x, 1, false).Closed? {
      ClosedInside(x);
      assert text + "" == text;
    } else {
      RunsOver(x);
    }
  }

  lemma {:induction false} CommentStops(s: string, q: bool, n: nat)
    requires n <= CommentAt(s, q)
    ensures CommentAt(s[..n], q) == n
  {
    if n > 0 {
      assert s[..n][1..] == s[1..][..n - 1];
      CommentStops(s[1..], if s[0] == '"' then !q else q, n - 1);
    }
  }

  lemma ScalarRaw(v: string, y: string)
    requires v != "" && v[0] == '\'' && Lacks(v, '\n')
    ensures ValueRaw(v + "\n" + y, |v|) == CStr(Trim(v[..CommentAt(v, false)]))
  {
    hide Trim, CStr, Scan, LeadBlank, CommentAt;
    var after := v + "\n" + y;
    LeadBlankPadded("", after);
    assert "" + after == after && after[..|v|] == v;
  }

  /** Single quotes around a text neither start nor hide a comment. */
  lemma SingleQuotedComment(s: string)
    ensures var v, k := "'" + s + "'", CommentAt(s, false);
            v[..CommentAt(v, false)] == if k == |s| then v else "'" + s[..k]
  {
    hide CommentAt, InStr;
    var v, k := "'" + s + "'", CommentAt(s, false);
    assert v == "'" + (s + "'");
    SingleQuotePasses(false);
    CommentAfter("'", s + "'", false);
    if k == |s| {
      SingleQuotePasses(InStr(s, false));
      CommentAfter(s, "'", false);
      assert v[..|v|] == v;
    } else {
      CommentInside(s, "'", false);
      assert v[..k + 1] == "'" + s[..k];
    }
  }

  lemma SingleQuotePasses(q: bool)
    ensures CommentAt("'", q) == 1 && InStr("'", q) == q
  {
    assert "'"[1..] == "";
  }

  lemma {:induction false} CommentInside(a: string, b: string, q: bool)
    requires CommentAt(a, q) < |a|
    ensures CommentAt(a + b, q) == CommentAt(a, q)
  {
    assert (a + b)[1..] == a[1..] + b;
    if a[0] == '"' { CommentInside(a[1..], b, !q); }
    else if a[0] != '#' || q { CommentInside(a[1..], b, q); }
  }

  /** THE REACH OF SINGLE QUOTES in scalars.  Only double quotes protect a `#`: a single-quoted scalar
      reads back if and only if it holds no `#` outside double quotes. */
  lemma SingleQuotedScalarExactly(s: string, y: string)
    requires Lacks(s, '\n') && NUL !in s
    ensures Unquote(ValueRaw("'" + s + "'" + "\n" + y, |s| + 2)) == s <==> CommentAt(s, false) == |s|
  {
    hide Trim, CStr, CommentAt, ValueRaw, Unquote, Lacks;
    var v, k := "'" + s + "'", CommentAt(s, false);
    assert |v| == |s| + 2 && Lacks(v, '\n') by { QuotedLacks(s, '\n'); }
    ScalarRaw(v, y);
    SingleQuotedComment(s);
    if k == |s| { WholeScalar(s); } else { CutScalar(s, k); }
  }

  lemma QuotedLacks(s: string, c: char)
    requires Lacks(s, c) && c != '\''
    ensures Lacks("'" + s + "'", c)
  {
  }

  lemma WholeScalar(s: string)
    requires NUL !in s
    ensures Unquote(CStr(Trim("'" + s + "'"))) == s
  {
    hide Trim, CStr;
    var v := "'" + s + "'";
    assert "" + v + "" == v;
    TrimPadded("", v, "");
    assert NUL !in v;
    CStrWhole(v);
    assert v[1..|v| - 1] == s;
  }

  lemma CutScalar(s: string, k: nat)
    requires k == CommentAt(s, false) < |s| && NUL !in s
    ensures Unquote(CStr(Trim("'" + s[..k]))) != s
  {
    var cut := "'" + s[..k];
    assert LeadWs(cut) == 0 && cut[0..] == cut;
    var raw := Trim(cut);
    var n := KeepLen(cut);
    assert raw == cut[..n];
    assert NUL !in raw;
    CStrWhole(raw);
    if raw == s {
      assert cut[1..] == s[..k];
      CommentStops(s, false, k);
      assert CommentAt(cut, false) == |cut|;
      CommentStops(cut, false, n);
    }
  }
}
