/** The policy parser in its own form: index loops over the file buffer that fill in policy
    records, proved equal to the functions of `PolicySpec`. */
module PolicyParser {
  import opened Text
  import opened PolicySpec

  // ---- Buffer loops ----------------------------------------------------------------------

  method SkipBlanks(buf: string, start: nat) returns (p: nat)
    requires start <= |buf|
    ensures p == start + LeadBlank(buf[start..])
  {
    p := start;
    while p < |buf|
      invariant start <= p <= |buf|
      invariant LeadBlank(buf[start..]) == p - start + LeadBlank(buf[p..])
    {
      assert buf[p..][1..] == buf[p + 1..];
      if buf[p] != ' ' && buf[p] != '\t' { break; }
      p := p + 1;
    }
  }

  method SkipWs(s: string, start: nat, end: nat) returns (p: nat)
    requires start <= end <= |s|
    ensures p == start + LeadWs(s[start..end])
  {
    p := start;
    while p < end
      invariant start <= p <= end
      invariant LeadWs(s[start..end]) == p - start + LeadWs(s[p..end])
    {
      assert s[p..end][1..] == s[p + 1..end];
      if !IsWs(s[p]) { break; }
      p := p + 1;
    }
  }

  method TrimEnd(buf: string, s: nat, end: nat) returns (e: nat)
    requires s <= end <= |buf|
    ensures e == s + KeepLen(buf[s..end])
  {
    e := end;
    while e > s
      invariant s <= e <= end
      invariant KeepLen(buf[s..end]) == KeepLen(buf[s..e])
    {
      assert buf[s..e][..e - s - 1] == buf[s..e - 1];
      if !IsWs(buf[e - 1]) { break; }
      e := e - 1;
    }
  }

  method CopyTrim(buf: string, start: nat, len: nat) returns (out: string)
    requires start + len <= |buf|
    ensures out == Trim(buf[start..start + len])
  {
    var end := start + len;
    var s := SkipWs(buf, start, end);
    TailSlice(buf, start, end, s - start);
    var e := TrimEnd(buf, s, end);
    HeadSlice(buf, s, end, e - s);
    out := buf[s..e];
  }

  method ParseInt(s: string) returns (v: int)
    ensures v == IntOf(s)
  {
    if |s| == 0 { return -1; }
    v := ParseUint(s, 0, |s|);
    assert s[0..|s|] == s;
  }

  method SkipSeparator(s: string, start: nat, end: nat) returns (p: nat)
    requires start <= end <= |s|
    ensures p == start + SepLen(s[start..end])
  {
    p := start;
    while p < end
      invariant start <= p <= end
      invariant SepLen(s[start..end]) == p - start + SepLen(s[p..end])
    {
      var c := s[p];
      assert s[p..end][1..] == s[p + 1..end];
      if c == ',' { p := p + 1; return; }
      if !IsWs(c) { break; }
      p := p + 1;
    }
  }

  /** The quoted item after the opening quote before `start`, and where its text ends. */
  method ReadQuoted(s: string, start: nat, end: nat, q: char) returns (item: string, next: nat)
    requires start <= end <= |s|
    ensures item == s[start..end][..Find(s[start..end], q)]
    ensures next == start + QuotedLen(s[start..end], q)
  {
    var pos := FindByte(s, start, end, q);
    SliceSlice(s, start, end, 0, pos - start);
    item := s[start..pos];
    next := if pos < end then pos + 1 else pos;
  }

  /** One round of the array loop, from the first byte that is not whitespace. */
  method ReadItem(s: string, loopStart: nat, start: nat, end: nat) returns (item: seq<string>, next: nat)
    requires loopStart <= start < end <= |s|
    requires start == loopStart + LeadWs(s[loopStart..end])
    ensures item == ItemHere(s[loopStart..end])
    ensures next == loopStart + ItemStep(s[loopStart..end])
  {
    hide LeadWs, SepLen, Find, QuotedLen;
    ghost var here := s[loopStart..end];
    ghost var lead := LeadWs(here);
    item, next := [], start;
    var qchar := s[start];
    assert here[lead] == qchar;
    if qchar == '"' || qchar == '\'' {
      TailSlice(s, loopStart, end, lead + 1);
      var text;
      text, next := ReadQuoted(s, start + 1, end, qchar);
      item := [text];
    }
    TailSlice(s, loopStart, end, next - loopStart);
    next := SkipSeparator(s, next, end);
    if next == loopStart { next := next + 1; }
  }

  method ParseItems(s: string, start: nat, end: nat) returns (v: seq<string>)
    requires start <= end <= |s|
    ensures v == Items(s[start..end])
  {
    v := [];
    var pos := start;
    hide ItemHere, ItemStep;
    while pos < end
      invariant start <= pos <= end
      invariant v + Items(s[pos..end]) == Items(s[start..end])
      decreases end - pos
    {
      var first := SkipWs(s, pos, end);
      if first >= end { return; }
      ItemsRound(s[pos..end]);
      var item, next := ReadItem(s, pos, first, end);
      TailSlice(s, pos, end, next - pos);
      ghost var rest := Items(s[next..end]);
      assert Items(s[pos..end]) == item + rest;
      assert v + (item + rest) == (v + item) + rest;
      v := v + item;
      pos := next;
    }
  }

  method ParseStrArray(s: string) returns (v: seq<string>)
    ensures v == StrArray(s)
    ensures forall x :: x in v ==> IsSlice(x, s)
  {
    v := [];
    var n := |s|;
    if n < 2 { return; }
    if s[0] != '[' { return; }
    var start, end := 1, n;
    while end > start
      invariant start <= end <= n
      invariant BodyEnd(s, n) == BodyEnd(s, end)
    {
      if s[end - 1] == ']' { end := end - 1; break; }
      end := end - 1;
    }
    ghost var body := s[start..end];

    v := ParseItems(s, start, end);
    forall x | x in v ensures IsSlice(x, s) {
      ItemsAreSlices(body, x);
      SliceOfSlice(x, s, start, end);
    }
  }

  // ---- Records ---------------------------------------------------------------------------

  class DefaultsRec {
    var ttl: nat
    var requireAuth: bool
    var auditLog: bool
    var envKeep: seq<string>
    var maxCommandLen: nat
    var includeDir: Option<string>
    var logSession: bool
    var sessionLogDir: string
    var logInput: bool
    var nssGroups: bool

    function Value(): Defaults
      reads this
    {
      Defaults(ttl, requireAuth, auditLog, envKeep, maxCommandLen, includeDir, logSession,
               sessionLogDir, logInput, nssGroups)
    }

    constructor ()
      ensures Value() == NEW_DEFAULTS
    {
      ttl, requireAuth, auditLog, envKeep, maxCommandLen := 300, true, true, [], 4096;
      includeDir, logSession, sessionLogDir := None, false, "/var/log/agnos/sessions";
      logInput, nssGroups := false, false;
    }

    method Set(key: string, raw: string)
      modifies this
      ensures Value() == DefaultsSet(old(Value()), key, raw)
    {
      if key == "timestamp_ttl" {
        var v := ParseInt(raw);
        if v >= 0 { ttl := v; }
        return;
      }
      if key == "require_auth" {
        var b := BoolOf(raw);
        if b.Some? { requireAuth := b.value; }
        return;
      }
      if key == "audit_log" {
        var b := BoolOf(raw);
        if b.Some? { auditLog := b.value; }
        return;
      }
      if key == "env_keep" {
        envKeep := ParseStrArray(raw);
        return;
      }
      if key == "max_command_len" {
        var v := ParseInt(raw);
        if v >= 0 { maxCommandLen := v; }
        return;
      }
      if key == "include_dir" { includeDir := Some(Unquote(raw)); return; }
      if key == "log_session" {
        var b := BoolOf(raw);
        if b.Some? { logSession := b.value; }
        return;
      }
      if key == "session_log_dir" { sessionLogDir := Unquote(raw); return; }
      if key == "log_input" {
        var b := BoolOf(raw);
        if b.Some? { logInput := b.value; }
        return;
      }
      if key == "nss_groups" {
        var b := BoolOf(raw);
        if b.Some? { nssGroups := b.value; }
        return;
      }
    }
  }

  class RuleRec {
    var user: Option<string>
    var group: Option<string>
    var runAs: string
    var commands: seq<string>
    var denyCommands: seq<string>
    var requireAuth: bool
    var description: string
    var capabilities: seq<string>
    var logSession: Option<bool>
    var selinuxContext: string
    var apparmorProfile: string
    var logInput: Option<bool>

    function Value(): Rule
      reads this
    {
      Rule(user, group, runAs, commands, denyCommands, requireAuth, description, capabilities,
           logSession, selinuxContext, apparmorProfile, logInput)
    }

    constructor ()
      ensures Value() == NEW_RULE
    {
      user, group, runAs := None, None, "root";
      commands, denyCommands, requireAuth := [], [], true;
      description, capabilities, logSession := "", [], None;
      selinuxContext, apparmorProfile, logInput := "", "", None;
    }

    method Set(key: string, raw: string)
      modifies this
      ensures Value() == RuleSet(old(Value()), key, raw)
    {
      if key == "user" { user := Some(Unquote(raw)); return; }
      if key == "group" { group := Some(Unquote(raw)); return; }
      if key == "run_as" { runAs := Unquote(raw); return; }
      if key == "commands" { commands := ParseStrArray(raw); return; }
      if key == "deny_commands" { denyCommands := ParseStrArray(raw); return; }
      if key == "require_auth" {
        var b := BoolOf(raw);
        if b.Some? { requireAuth := b.value; }
        return;
      }
      if key == "description" { description := Unquote(raw); return; }
      if key == "capabilities" { capabilities := ParseStrArray(raw); return; }
      if key == "log_session" {
        var b := BoolOf(raw);
        if b.Some? { logSession := b; }
        return;
      }
      if key == "selinux_context" { selinuxContext := Unquote(raw); return; }
      if key == "apparmor_profile" { apparmorProfile := Unquote(raw); return; }
      if key == "log_input" {
        var b := BoolOf(raw);
        if b.Some? { logInput := b; }
        return;
      }
    }
  }

  class PolicyRec {
    var defaults: DefaultsRec
    var rules: seq<RuleRec>

    /** The rule records are pairwise distinct, so writing one leaves the others alone. */
    ghost predicate Valid()
      reads this
    {
      forall i, j :: 0 <= i < j < |rules| ==> rules[i] != rules[j]
    }

    function Value(): Policy
      reads this, defaults, rules
    {
      Policy(defaults.Value(),
             seq(|rules|, i requires 0 <= i < |rules| reads this, rules => rules[i].Value()))
    }

    constructor ()
      ensures Valid() && fresh(defaults) && rules == []
      ensures Value() == START.policy
    {
      defaults := new DefaultsRec();
      rules := [];
    }

    method AddRule() returns (r: RuleRec)
      requires Valid()
      modifies this
      ensures Valid() && fresh(r) && defaults == old(defaults) && rules == old(rules) + [r]
      ensures Value() == old(Value()).(rules := old(Value()).rules + [NEW_RULE])
    {
      r := new RuleRec();
      assert r !in rules;
      rules := rules + [r];
    }

    /** Enter the section that a header names. */
    method EnterSection(name: string, ghost was: Section) returns (section: Section)
      requires Valid()
      modifies this
      ensures Valid() && defaults == old(defaults) && old(rules) <= rules
      ensures forall i :: |old(rules)| <= i < |rules| ==> fresh(rules[i])
      ensures PState(Value(), section) == Enter(PState(old(Value()), was), name)
    {
      if name == "defaults" {
        section := DefaultsSection;
      } else if name == "rules" {
        section := RuleSection;
        var r := AddRule();
      } else {
        section := NoSection;
      }
    }

    /** Apply one entry: `_shk_def_set` or `_shk_rule_set` on the current record. */
    method AssignIn(section: Section, key: string, raw: string)
      requires Valid() && PolicySpec.Valid(PState(Value(), section))
      modifies defaults, rules
      ensures PState(Value(), section) == Assign(PState(old(Value()), section), key, raw)
    {
      if section == DefaultsSection {
        defaults.Set(key, raw);
        assert forall i :: 0 <= i < |rules| ==> rules[i].Value() == old(rules[i].Value());
      } else if section == RuleSection {
        rules[|rules| - 1].Set(key, raw);
        assert forall i :: 0 <= i < |rules| - 1 ==> rules[i].Value() == old(rules[i].Value());
      }
    }
  }

  // ---- Values ----------------------------------------------------------------------------

  /** Walk to the bracket that closes the array opened just before `start`. */
  method ScanArray(buf: string, start: nat) returns (ap: nat)
    requires start <= |buf|
    ensures ap == start + Scan(buf[start..], 1, false)
  {
    var depth: nat, inQ := 1, false;
    ap := start;
    while ap < |buf| && depth > 0
      invariant start <= ap <= |buf|
      invariant Scan(buf[start..], 1, false) == ap - start + Scan(buf[ap..], depth, inQ)
    {
      var ch := buf[ap];
      assert buf[ap..][1..] == buf[ap + 1..];
      if inQ {
        if ch == '"' { inQ := false; }
      } else {
        if ch == '"' { inQ := true; }
        else if ch == '[' { depth := depth + 1; }
        else if ch == ']' { depth := depth - 1; }
      }
      ap := ap + 1;
    }
  }

  /** Where the scalar value between `start` and `end` stops: at an inline comment or the end. */
  method ScanScalar(buf: string, start: nat, end: nat) returns (vend: nat)
    requires start <= end <= |buf|
    ensures vend == start + CommentAt(buf[start..end], false)
  {
    vend := end;
    var scan, inStr := start, false;
    while scan < end
      invariant start <= scan <= end + 1
      invariant scan == end + 1 ==> vend == start + CommentAt(buf[start..end], false)
      invariant scan <= end ==> vend == end
      invariant scan <= end ==>
                  CommentAt(buf[start..end], false) == scan - start + CommentAt(buf[scan..end], inStr)
    {
      var c := buf[scan];
      assert buf[scan..end][1..] == buf[scan + 1..end];
      if c == '"' { inStr := !inStr; }
      else if c == '#' && !inStr { vend := scan; scan := end; }
      scan := scan + 1;
    }
  }

  method ReadHeaderName(buf: string, pos: nat, lend: nat) returns (name: string)
    requires pos < lend <= |buf|
    requires lend < |buf| ==> buf[lend] == '\n'
    ensures name == HeaderName(buf[pos..lend])
  {
    var isArray := pos + 1 < |buf| && buf[pos + 1] == '[';
    var nameStart := if isArray then pos + 2 else pos + 1;
    TailSlice(buf, pos, lend, nameStart - pos);
    var nameEnd := FindByte(buf, nameStart, lend, ']');
    HeadSlice(buf, nameStart, lend, nameEnd - nameStart);
    var raw := CopyTrim(buf, nameStart, nameEnd - nameStart);
    name := CStr(raw);
  }

  /** The array value after an `=`, whose bracket is at `vstart`, and where reading resumes. */
  method ReadArrayValue(buf: string, start: nat, vstart: nat) returns (raw: string, next: nat)
    requires start <= vstart < |buf| && vstart - start == LeadBlank(buf[start..])
    requires ArrayNext(buf[start..])
    ensures next <= |buf| && next - start == ValueLen(buf[start..], 0)
    ensures raw == ValueRaw(buf[start..], 0)
  {
    Suffix(buf, start, vstart + 1 - start);
    next := ScanArray(buf, vstart + 1);
    SuffixHead(buf, start, next - start);
    var value := CopyTrim(buf, start, next - start);
    raw := CStr(value);
  }

  method ReadScalarValue(buf: string, start: nat, lend: nat) returns (raw: string)
    requires start <= lend <= |buf|
    ensures var line := buf[start..lend];
            raw == CStr(Trim(line[..CommentAt(line, false)]))
  {
    var vend := ScanScalar(buf, start, lend);
    HeadSlice(buf, start, lend, vend - start);
    var value := CopyTrim(buf, start, vend - start);
    raw := CStr(value);
  }

  /** The value after an `=` whose line ends at `lend`, and where reading resumes. */
  method ReadValue(buf: string, start: nat, lend: nat) returns (raw: string, next: nat)
    requires start <= lend <= |buf|
    ensures next <= |buf| && next - start == ValueLen(buf[start..], lend - start)
    ensures raw == ValueRaw(buf[start..], lend - start)
  {
    var vstart := SkipBlanks(buf, start);
    if vstart < |buf| && buf[vstart] == '[' {
      raw, next := ReadArrayValue(buf, start, vstart);
    } else {
      SuffixHead(buf, start, lend - start);
      raw := ReadScalarValue(buf, start, lend);
      next := lend;
    }
  }

  method ReadKey(buf: string, pos: nat, eq: nat) returns (key: string)
    requires pos <= eq <= |buf|
    ensures key == CStr(Trim(buf[pos..][..eq - pos]))
  {
    SuffixHead(buf, pos, eq - pos);
    var raw := CopyTrim(buf, pos, eq - pos);
    key := CStr(raw);
  }

  method FindInLine(buf: string, pos: nat, lend: nat, c: char) returns (p: nat)
    requires pos <= lend <= |buf|
    ensures p <= lend && p == pos + Find(buf[pos..][..lend - pos], c)
  {
    SuffixHead(buf, pos, lend - pos);
    p := FindByte(buf, pos, lend, c);
  }

  method FindEol(buf: string, pos: nat) returns (lend: nat)
    requires pos <= |buf|
    ensures lend <= |buf| && lend == pos + Find(buf[pos..], '\n')
  {
    SuffixAll(buf, pos);
    lend := FindByte(buf, pos, |buf|, '\n');
  }

  method ReadEntry(buf: string, pos: nat) returns (e: Entry)
    requires pos < |buf|
    ensures e == EntryAt(buf[pos..])
  {
    hide CStr, Trim, ValueLen, ValueRaw;
    var lend := FindEol(buf, pos);
    var eq := FindInLine(buf, pos, lend, '=');
    if eq >= lend { return NoEntry(lend - pos); }
    var key := ReadKey(buf, pos, eq);
    Suffix(buf, pos, eq - pos + 1);
    var raw, next := ReadValue(buf, eq + 1, lend);
    e := Entry(next - pos, key, raw);
  }

  method ReadHeader(buf: string, pos: nat) returns (name: string, lend: nat)
    requires pos < |buf| && buf[pos] == '['
    ensures lend <= |buf| && lend == pos + Find(buf[pos..], '\n')
    ensures name == HeaderName(buf[pos..][..lend - pos])
  {
    lend := FindEol(buf, pos);
    FindMeets(buf[pos..], '\n');
    SuffixHead(buf, pos, lend - pos);
    name := ReadHeaderName(buf, pos, lend);
  }

  // ---- The parser ------------------------------------------------------------------------

  /** Where the next line starts when this one ends at `lend`. */
  function NextLine(buf: string, lend: nat): (r: nat)
    requires lend <= |buf|
    ensures lend <= r <= |buf|
  {
    if lend < |buf| then lend + 1 else lend
  }

  lemma NextLineSuffix(buf: string, pos: nat, lend: nat)
    requires pos <= lend <= |buf|
    ensures buf[NextLine(buf, lend)..] == Drop(buf[pos..], lend - pos + 1)
  {
  }

  /** One line: a comment or blank line, a section header, or an entry. */
  method ParseLine(pol: PolicyRec, section: Section, buf: string, pos: nat)
    returns (lend: nat, section': Section)
    requires pos < |buf|
    requires pol.Valid() && PolicySpec.Valid(PState(pol.Value(), section))
    modifies pol, pol.defaults, pol.rules
    ensures lend <= |buf| && lend == pos + LineLen(buf[pos..])
    ensures pol.Valid() && pol.defaults == old(pol.defaults) && old(pol.rules) <= pol.rules
    ensures forall i :: |old(pol.rules)| <= i < |pol.rules| ==> fresh(pol.rules[i])
    ensures PState(pol.Value(), section') == LineEffect(buf[pos..], PState(old(pol.Value()), section))
  {
    hide EntryAt, HeaderName, Assign, Enter, Find;
    section' := section;
    var first := buf[pos];
    ghost var t := buf[pos..];
    assert t[0] == first;
    if first == '#' || first == '\n' || first == '\r' {
      lend := FindEol(buf, pos);
    } else if first == '[' {
      var name;
      name, lend := ReadHeader(buf, pos);
      section' := pol.EnterSection(name, section);
    } else {
      var e := ReadEntry(buf, pos);
      lend := pos + e.len;
      if e.Entry? {
        pol.AssignIn(section, e.key, e.raw);
      }
    }
  }

  method ParsePolicyText(buf: string) returns (pol: PolicyRec)
    ensures pol.Valid() && fresh(pol) && fresh(pol.defaults) && fresh(pol.rules)
    ensures pol.Value() == ParsePolicy(buf)
  {
    hide LineLen, LineEffect, LeadBlank, Drop;
    pol := new PolicyRec();
    var section := NoSection;
    var pos := 0;
    assert buf[0..] == buf;
    while pos < |buf|
      invariant pos <= |buf|
      invariant pol.Valid() && fresh(pol) && fresh(pol.defaults) && fresh(pol.rules)
      invariant PolicySpec.Valid(PState(pol.Value(), section))
      invariant Parse(buf[pos..], PState(pol.Value(), section)) == Parse(buf, START)
      decreases |buf| - pos
    {
      ghost var p0 := pos;
      pos := SkipBlanks(buf, pos);
      Suffix(buf, p0, pos - p0);
      if pos >= |buf| { break; }
      var lend;
      lend, section := ParseLine(pol, section, buf, pos);
      NextLineSuffix(buf, pos, lend);
      pos := NextLine(buf, lend);
    }
  }
}
