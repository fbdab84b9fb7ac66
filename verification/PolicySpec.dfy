/** Policies as values, and the text parser as a function on the unread suffix of the file. */
module PolicySpec {
  import opened Text

  datatype Defaults = Defaults(
    ttl: nat, requireAuth: bool, auditLog: bool, envKeep: seq<string>, maxCommandLen: nat,
    includeDir: Option<string>, logSession: bool, sessionLogDir: string, logInput: bool, nssGroups: bool)

  /** `None` in `logSession` and `logInput` is the inherit sentinel (-1). */
  datatype Rule = Rule(
    user: Option<string>, group: Option<string>, runAs: string,
    commands: seq<string>, denyCommands: seq<string>, requireAuth: bool, description: string,
    capabilities: seq<string>, logSession: Option<bool>,
    selinuxContext: string, apparmorProfile: string, logInput: Option<bool>)

  datatype Policy = Policy(defaults: Defaults, rules: seq<Rule>)

  datatype Section = NoSection | DefaultsSection | RuleSection

  /** The policy read so far and the section that the next entry belongs to.  In `RuleSection`
      entries go to the last rule. */
  datatype PState = PState(policy: Policy, section: Section)

  const NEW_DEFAULTS :=
    Defaults(300, true, true, [], 4096, None, false, "/var/log/agnos/sessions", false, false)

  const NEW_RULE :=
    Rule(None, None, "root", [], [], true, "", [], None, "", "", None)

  const START := PState(Policy(NEW_DEFAULTS, []), NoSection)

  predicate Valid(st: PState) {
    st.section == RuleSection ==> st.policy.rules != []
  }

  // ---- Scalar readers --------------------------------------------------------------------

  function Unquote(s: string): string {
    if |s| >= 2 && s[0] == s[|s| - 1] && (s[0] == '"' || s[0] == '\'')
    then s[1..|s| - 1] else s
  }

  function IntOf(s: string): int {
    if s == [] then -1 else DecOf(s)
  }

  function BoolOf(s: string): Option<bool> {
    if s == "true" || s == "True" then Some(true)
    else if s == "false" || s == "False" then Some(false)
    else None
  }

  // ---- String arrays ---------------------------------------------------------------------

  /** How much whitespace is skipped, up to and including at most one comma. */
  function SepLen(s: string): (r: nat)
    ensures r <= |s|
  {
    if s == [] then 0
    else if s[0] == ',' then 1
    else if IsWs(s[0]) then 1 + SepLen(s[1..])
    else 0
  }

  predicate IsQuote(c: char) { c == '"' || c == '\'' }

  /** Length of the text after an opening quote `q`, its closing quote included. */
  function QuotedLen(t: string, q: char): (r: nat)
    ensures r <= |t|
  {
    var k := Find(t, q);
    if k < |t| then k + 1 else k
  }

  /** How far one round of the array reader advances: at least one byte, whatever it meets. */
  function ItemStep(body: string): (n: nat)
    requires LeadWs(body) < |body|
    ensures 0 < n <= |body|
  {
    var lead := LeadWs(body);
    if IsQuote(body[lead]) then
      var p := lead + 1 + QuotedLen(body[lead + 1..], body[lead]);
      p + SepLen(body[p..])
    else
      var p := lead + SepLen(body[lead..]);
      if p == 0 then 1 else p
  }

  /** The item one round of the array reader pushes, if any. */
  function ItemHere(body: string): seq<string>
    requires LeadWs(body) < |body|
  {
    var lead := LeadWs(body);
    if IsQuote(body[lead]) then
      var t := body[lead + 1..];
      [t[..Find(t, body[lead])]]
    else []
  }

  function Items(body: string): seq<string>
    decreases |body|
  {
    if LeadWs(body) == |body| then []
    else ItemHere(body) + Items(body[ItemStep(body)..])
  }

  /** Position of the last `]` after the opening bracket, or 1, an empty body, when there is none. */
  function BodyEnd(s: string, end: nat): (r: nat)
    requires 1 <= end <= |s|
    ensures 1 <= r <= end
  {
    if end <= 1 then end
    else if s[end - 1] == ']' then end - 1
    else BodyEnd(s, end - 1)
  }

  function StrArray(s: string): seq<string> {
    if |s| < 2 || s[0] != '[' then [] else Items(s[1..BodyEnd(s, |s|)])
  }

  // ---- Entries ---------------------------------------------------------------------------

  function DefaultsSet(d: Defaults, key: string, raw: string): Defaults {
    var n, b := IntOf(raw), BoolOf(raw);
    if key == "timestamp_ttl" then if n >= 0 then d.(ttl := n) else d
    else if key == "require_auth" then if b.Some? then d.(requireAuth := b.value) else d
    else if key == "audit_log" then if b.Some? then d.(auditLog := b.value) else d
    else if key == "env_keep" then d.(envKeep := StrArray(raw))
    else if key == "max_command_len" then if n >= 0 then d.(maxCommandLen := n) else d
    else if key == "include_dir" then d.(includeDir := Some(Unquote(raw)))
    else if key == "log_session" then if b.Some? then d.(logSession := b.value) else d
    else if key == "session_log_dir" then d.(sessionLogDir := Unquote(raw))
    else if key == "log_input" then if b.Some? then d.(logInput := b.value) else d
    else if key == "nss_groups" then if b.Some? then d.(nssGroups := b.value) else d
    else d
  }

  function RuleSet(r: Rule, key: string, raw: string): Rule {
    var b := BoolOf(raw);
    if key == "user" then r.(user := Some(Unquote(raw)))
    else if key == "group" then r.(group := Some(Unquote(raw)))
    else if key == "run_as" then r.(runAs := Unquote(raw))
    else if key == "commands" then r.(commands := StrArray(raw))
    else if key == "deny_commands" then r.(denyCommands := StrArray(raw))
    else if key == "require_auth" then if b.Some? then r.(requireAuth := b.value) else r
    else if key == "description" then r.(description := Unquote(raw))
    else if key == "capabilities" then r.(capabilities := StrArray(raw))
    else if key == "log_session" then if b.Some? then r.(logSession := b) else r
    else if key == "selinux_context" then r.(selinuxContext := Unquote(raw))
    else if key == "apparmor_profile" then r.(apparmorProfile := Unquote(raw))
    else if key == "log_input" then if b.Some? then r.(logInput := b) else r
    else r
  }

  /** Apply one `key = value` entry in the current section. */
  function Assign(st: PState, key: string, raw: string): (r: PState)
    requires Valid(st)
    ensures Valid(r) && r.section == st.section && |r.policy.rules| == |st.policy.rules|
  {
    var p := st.policy;
    match st.section
    case NoSection => st
    case DefaultsSection => st.(policy := p.(defaults := DefaultsSet(p.defaults, key, raw)))
    case RuleSection =>
      var last := |p.rules| - 1;
      st.(policy := p.(rules := p.rules[last := RuleSet(p.rules[last], key, raw)]))
  }

  /** Enter the section a header line names. */
  function Enter(st: PState, name: string): (r: PState)
    ensures Valid(r)
  {
    if name == "defaults" then st.(section := DefaultsSection)
    else if name == "rules" then
      PState(st.policy.(rules := st.policy.rules + [NEW_RULE]), RuleSection)
    else st.(section := NoSection)
  }

  // ---- Lines -----------------------------------------------------------------------------

  /** Bytes up to and including the bracket that brings the depth to zero (or all of `s`);
      brackets inside double quotes do not count. */
  function Scan(s: string, depth: nat, inQ: bool): (r: nat)
    ensures r <= |s|
  {
    if s == [] || depth == 0 then 0
    else 1 + if inQ then Scan(s[1..], depth, s[0] != '"')
             else if s[0] == '"' then Scan(s[1..], depth, true)
             else if s[0] == '[' then Scan(s[1..], depth + 1, false)
             else if s[0] == ']' then Scan(s[1..], depth - 1, false)
             else Scan(s[1..], depth, false)
  }

  /** Position of the first `#` outside double quotes, or the length. */
  function CommentAt(s: string, inStr: bool): (r: nat)
    ensures r <= |s|
  {
    if s == [] then 0
    else if s[0] == '"' then 1 + CommentAt(s[1..], !inStr)
    else if s[0] == '#' && !inStr then 0
    else 1 + CommentAt(s[1..], inStr)
  }

  /** The name between the brackets of a header line. */
  function HeaderName(line: string): string
  {
    var body := if line == [] then [] else if |line| > 1 && line[1] == '[' then line[2..] else line[1..];
    CStr(Trim(body[..Find(body, ']')]))
  }

  /** What an entry at the start of `t` consumes, and its key and raw value if it has an `=`. */
  datatype Entry = Entry(len: nat, key: string, raw: string) | NoEntry(len: nat)

  /** Is the value that `after` starts with an array? */
  predicate ArrayNext(after: string) {
    LeadBlank(after) < |after| && after[LeadBlank(after)] == '['
  }

  /** Bytes that the value after an `=` takes; its line ends at `eol`. */
  function ValueLen(after: string, eol: nat): (n: nat)
    requires eol <= |after|
    ensures n <= |after|
  {
    var v := LeadBlank(after);
    if ArrayNext(after) then v + 1 + Scan(after[v + 1..], 1, false) else eol
  }

  function ValueRaw(after: string, eol: nat): string
    requires eol <= |after|
  {
    if ArrayNext(after) then CStr(Trim(after[..ValueLen(after, eol)]))
    else CStr(Trim(after[..eol][..CommentAt(after[..eol], false)]))
  }

  function EntryAt(t: string): (e: Entry)
    ensures e.len <= |t|
  {
    var eol := Find(t, '\n');
    var eq := Find(t[..eol], '=');
    if eq == eol then NoEntry(eol)
    else
      var after := t[eq + 1..];
      Entry(eq + 1 + ValueLen(after, eol - eq - 1), CStr(Trim(t[..eq])), ValueRaw(after, eol - eq - 1))
  }

  /** A line of `t` that is neither a header nor an entry. */
  predicate Skipped(t: string) {
    t != [] && (t[0] == '#' || t[0] == '\n' || t[0] == '\r')
  }

  /** Bytes that the line or multi-line entry at the start of `t` takes, its newline excluded. */
  function LineLen(t: string): (n: nat)
    requires t != []
    ensures n <= |t|
  {
    if Skipped(t) || t[0] == '[' then Find(t, '\n') else EntryAt(t).len
  }

  /** What that line does to the policy read so far. */
  function LineEffect(t: string, st: PState): (r: PState)
    requires t != [] && Valid(st)
    ensures Valid(r)
  {
    if Skipped(t) then st
    else if t[0] == '[' then Enter(st, HeaderName(t[..Find(t, '\n')]))
    else
      var e := EntryAt(t);
      if e.Entry? then Assign(st, e.key, e.raw) else st
  }

  function Parse(s: string, st: PState): PState
    requires Valid(st)
    decreases |s|
  {
    var t := s[LeadBlank(s)..];
    if t == [] then st else Parse(Drop(t, LineLen(t) + 1), LineEffect(t, st))
  }

  function ParsePolicy(s: string): Policy {
    Parse(s, START).policy
  }

  lemma ItemsRound(body: string)
    requires LeadWs(body) < |body|
    ensures Items(body) == ItemHere(body) + Items(body[ItemStep(body)..])
  {
  }

  ghost predicate IsSlice(x: string, s: string) {
    exists i, j :: 0 <= i <= j <= |s| && x == s[i..j]
  }

  lemma SliceOfSuffix(x: string, s: string, off: nat)
    requires off <= |s| && IsSlice(x, s[off..])
    ensures IsSlice(x, s)
  {
    var i, j :| 0 <= i <= j <= |s| - off && x == s[off..][i..j];
    assert x == s[off + i..off + j];
  }

  lemma SliceOfSlice(x: string, s: string, a: nat, b: nat)
    requires a <= b <= |s| && IsSlice(x, s[a..b])
    ensures IsSlice(x, s)
  {
    var i, j :| 0 <= i <= j <= b - a && x == s[a..b][i..j];
    SliceSlice(s, a, b, i, j);
    assert x == s[a + i..a + j];
  }

  /** Every item of a parsed array is a slice of the text between the brackets. */
  lemma {:induction false} ItemsAreSlices(body: string, x: string)
    requires x in Items(body)
    ensures IsSlice(x, body)
    decreases |body|
  {
    var lead := LeadWs(body);
    if x in ItemHere(body) {
      var k := Find(body[lead + 1..], body[lead]);
      assert x == body[lead + 1..lead + 1 + k];
    } else {
      var n := ItemStep(body);
      ItemsAreSlices(body[n..], x);
      SliceOfSuffix(x, body, n);
    }
  }

  // ---- Lists that come out empty ---------------------------------------------------------

  predicate NoQuote(s: string) { forall i :: 0 <= i < |s| ==> !IsQuote(s[i]) }

  lemma {:induction false} LeadHasNoQuote(s: string)
    ensures NoQuote(s[..LeadWs(s)])
  {
    if s != [] && IsWs(s[0]) {
      LeadHasNoQuote(s[1..]);
      assert s[..LeadWs(s)] == [s[0]] + s[1..][..LeadWs(s[1..])];
    }
  }

  lemma {:induction false} SepHasNoQuote(s: string)
    ensures NoQuote(s[..SepLen(s)])
  {
    if s != [] && s[0] != ',' && IsWs(s[0]) {
      SepHasNoQuote(s[1..]);
      assert s[..SepLen(s)] == [s[0]] + s[1..][..SepLen(s[1..])];
    }
  }

  /** A round that pushes nothing passes no quote. */
  lemma EmptyRound(body: string)
    requires LeadWs(body) < |body| && !IsQuote(body[LeadWs(body)])
    ensures NoQuote(body[..ItemStep(body)])
  {
    hide LeadWs, SepLen;
    var lead := LeadWs(body);
    LeadHasNoQuote(body);
    SepHasNoQuote(body[lead..]);
    var p := lead + SepLen(body[lead..]);
    assert body[..p] == body[..lead] + body[lead..][..SepLen(body[lead..])];
  }

  /** The array reader finds nothing exactly where there is no quote of either kind. */
  lemma {:induction false} NothingExactly(body: string)
    ensures Items(body) == [] <==> NoQuote(body)
    decreases |body|
  {
    hide ItemStep;
    var lead := LeadWs(body);
    if lead == |body| {
      LeadHasNoQuote(body);
      assert body[..lead] == body;
    } else if !IsQuote(body[lead]) {
      var n := ItemStep(body);
      EmptyRound(body);
      NothingExactly(body[n..]);
      ItemsRound(body);
      assert body == body[..n] + body[n..];
    }
  }

  lemma {:induction false} BodyEndAt(s: string, end: nat)
    requires 1 <= end <= |s|
    ensures var e := BodyEnd(s, end);
            (e > 1 ==> e < |s| && s[e] == ']') && forall k :: e < k < end ==> s[k] != ']'
  {
    if end > 1 && s[end - 1] != ']' { BodyEndAt(s, end - 1); }
  }

  /** An opening bracket, and later a quote, and later still a closing bracket. */
  predicate HoldsItem(raw: string) {
    && raw != "" && raw[0] == '['
    && exists i, j :: 1 <= i < j < |raw| && IsQuote(raw[i]) && raw[j] == ']'
  }

  /** A value is read as a list with nothing in it exactly when it holds no item. */
  lemma EmptyListExactly(raw: string)
    ensures StrArray(raw) == [] <==> !HoldsItem(raw)
  {
    hide Items, BodyEnd;
    if |raw| >= 2 && raw[0] == '[' {
      var e := BodyEnd(raw, |raw|);
      var body := raw[1..e];
      BodyEndAt(raw, |raw|);
      NothingExactly(body);
      if !NoQuote(body) {
        var i :| 0 <= i < |body| && IsQuote(body[i]);
        assert IsQuote(raw[i + 1]) && raw[e] == ']';
      }
      if HoldsItem(raw) {
        var i, j :| 1 <= i < j < |raw| && IsQuote(raw[i]) && raw[j] == ']';
        assert j <= e && IsQuote(body[i - 1]);
      }
    }
  }
}
