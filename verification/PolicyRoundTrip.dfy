/** A canonical printer for policies, which the repository does not have, and the proof that the
    parser inverts it. */
module PolicyRoundTrip {
  import opened Text
  import opened PolicySpec
  import opened PolicyLayout

  // ---- Keys ------------------------------------------------------------------------------

  datatype Key =
    | TimestampTtl | MaxCommandLen
    | RequireAuth | AuditLog | LogSession | LogInput | NssGroups
    | IncludeDir | SessionLogDir
    | User | Group | RunAs | Description | SelinuxContext | ApparmorProfile
    | EnvKeep | Commands | DenyCommands | Capabilities

  function Name(k: Key): string {
    match k
    case TimestampTtl => "timestamp_ttl"
    case MaxCommandLen => "max_command_len"
    case RequireAuth => "require_auth"
    case AuditLog => "audit_log"
    case LogSession => "log_session"
    case LogInput => "log_input"
    case NssGroups => "nss_groups"
    case IncludeDir => "include_dir"
    case SessionLogDir => "session_log_dir"
    case User => "user"
    case Group => "group"
    case RunAs => "run_as"
    case Description => "description"
    case SelinuxContext => "selinux_context"
    case ApparmorProfile => "apparmor_profile"
    case EnvKeep => "env_keep"
    case Commands => "commands"
    case DenyCommands => "deny_commands"
    case Capabilities => "capabilities"
  }

  predicate LowerCase(s: string) {
    forall i :: 0 <= i < |s| ==> 'a' <= s[i] <= 'z' || s[i] == '_'
  }

  lemma FlagNamesAreLowerCase(k: Key)
    requires k.RequireAuth? || k.AuditLog? || k.LogSession? || k.LogInput? || k.NssGroups?
    ensures Name(k) != [] && LowerCase(Name(k))
  {
  }

  lemma TextNamesAreLowerCase(k: Key)
    requires || k.IncludeDir? || k.SessionLogDir? || k.User? || k.Group? || k.RunAs? || k.Description?
             || k.SelinuxContext? || k.ApparmorProfile?
    ensures Name(k) != [] && LowerCase(Name(k))
  {
  }

  lemma OtherNamesAreLowerCase(k: Key)
    requires || k.TimestampTtl? || k.MaxCommandLen? || k.EnvKeep? || k.Commands? || k.DenyCommands?
             || k.Capabilities?
    ensures Name(k) != [] && LowerCase(Name(k))
  {
  }

  lemma LowerCaseKey(key: string)
    requires key != [] && LowerCase(key)
    ensures KeyOk(key)
  {
  }

  lemma NameOk(k: Key)
    ensures KeyOk(Name(k))
  {
    hide Name, Tight;
    match k {
      case RequireAuth | AuditLog | LogSession | LogInput | NssGroups => FlagNamesAreLowerCase(k);
      case TimestampTtl | MaxCommandLen | EnvKeep | Commands | DenyCommands | Capabilities =>
        OtherNamesAreLowerCase(k);
      case _ => TextNamesAreLowerCase(k);
    }
    LowerCaseKey(Name(k));
  }

  // ---- Printing --------------------------------------------------------------------------

  function Quoted(s: string): string { "\"" + s + "\"" }

  function FlagText(b: bool): string { if b then "true" else "false" }

  function EntryLine(k: Key, value: string): Line {
    ScalarLine("", Name(k), " ", " ", value, "", None)
  }

  function StrLine(k: Key, s: string): Line { EntryLine(k, Quoted(s)) }

  function NumLine(k: Key, n: nat): Line { EntryLine(k, Dec(n)) }

  function FlagLine(k: Key, b: bool): Line { EntryLine(k, FlagText(b)) }

  function ListLine(k: Key, items: seq<string>): Line {
    ArrayLine("", Name(k), " ", " ",
              seq(|items|, i requires 0 <= i < |items| =>
                Elem(if i == 0 then "" else " ", '"', items[i], "", i < |items| - 1)),
              "", '\n')
  }

  function OptStr(k: Key, o: Option<string>): seq<Line> {
    if o.Some? then [StrLine(k, o.value)] else []
  }

  function OptFlag(k: Key, o: Option<bool>): seq<Line> {
    if o.Some? then [FlagLine(k, o.value)] else []
  }

  const DEFAULTS_HEADER := HeaderLine("", false, "", "defaults", "", "")
  const RULE_HEADER := HeaderLine("", true, "", "rules", "", "]")

  /** Which entries the printer may leave out when they only repeat the default. */
  type Omit = Key -> bool

  function Unless(skip: bool, l: Line): seq<Line> { if skip then [] else [l] }

  const LOG_DIR := "/var/log/agnos/sessions"

  /** The defaults table.  Whatever `o` allows is left out when it has the value written here, which is
      what an absent entry means. */
  function DefaultsLines(d: Defaults, o: Omit): seq<Line> {
    MiddleDefaults(d, o)
    + Unless(o(LogInput) && d.logInput == false, FlagLine(LogInput, d.logInput))
    + Unless(o(NssGroups) && d.nssGroups == false, FlagLine(NssGroups, d.nssGroups))
  }

  function MiddleDefaults(d: Defaults, o: Omit): seq<Line> {
    FirstDefaults(d, o)
    + OptStr(IncludeDir, d.includeDir)
    + Unless(o(LogSession) && d.logSession == false, FlagLine(LogSession, d.logSession))
    + Unless(o(SessionLogDir) && d.sessionLogDir == LOG_DIR, StrLine(SessionLogDir, d.sessionLogDir))
  }

  function FirstDefaults(d: Defaults, o: Omit): seq<Line> {
    [DEFAULTS_HEADER]
    + Unless(o(TimestampTtl) && d.ttl == 300, NumLine(TimestampTtl, d.ttl))
    + Unless(o(RequireAuth) && d.requireAuth == true, FlagLine(RequireAuth, d.requireAuth))
    + Unless(o(AuditLog) && d.auditLog == true, FlagLine(AuditLog, d.auditLog))
    + Unless(o(EnvKeep) && d.envKeep == [], ListLine(EnvKeep, d.envKeep))
    + Unless(o(MaxCommandLen) && d.maxCommandLen == 4096, NumLine(MaxCommandLen, d.maxCommandLen))
  }

  function RuleLines(r: Rule, o: Omit): seq<Line> {
    MiddleOfRule(r, o)
    + OptFlag(LogSession, r.logSession)
    + Unless(o(SelinuxContext) && r.selinuxContext == "", StrLine(SelinuxContext, r.selinuxContext))
    + Unless(o(ApparmorProfile) && r.apparmorProfile == "", StrLine(ApparmorProfile, r.apparmorProfile))
    + OptFlag(LogInput, r.logInput)
  }

  function MiddleOfRule(r: Rule, o: Omit): seq<Line> {
    FirstOfRule(r, o)
    + Unless(o(DenyCommands) && r.denyCommands == [], ListLine(DenyCommands, r.denyCommands))
    + Unless(o(RequireAuth) && r.requireAuth == true, FlagLine(RequireAuth, r.requireAuth))
    + Unless(o(Description) && r.description == "", StrLine(Description, r.description))
    + Unless(o(Capabilities) && r.capabilities == [], ListLine(Capabilities, r.capabilities))
  }

  function FirstOfRule(r: Rule, o: Omit): seq<Line> {
    [RULE_HEADER] + OptStr(User, r.user) + OptStr(Group, r.group)
    + Unless(o(RunAs) && r.runAs == "root", StrLine(RunAs, r.runAs))
    + Unless(o(Commands) && r.commands == [], ListLine(Commands, r.commands))
  }

  function RulesLines(rs: seq<Rule>, o: Omit): seq<Line> {
    if rs == [] then [] else RulesLines(rs[..|rs| - 1], o) + RuleLines(rs[|rs| - 1], o)
  }

  function PolicyLines(p: Policy, o: Omit): seq<Line> {
    DefaultsLines(p.defaults, o) + RulesLines(p.rules, o)
  }

  /** The text without the entries that `o` allows to be left out, and the full one. */
  function RenderSparse(p: Policy, o: Omit): string { LinesText(PolicyLines(p, o)) }

  function Render(p: Policy): string { RenderSparse(p, (k: Key) => false) }

  // ---- Printable policies ----------------------------------------------------------------

  predicate ItemOk(s: string) { NUL !in s && Lacks(s, '"') }

  predicate StrOk(s: string) { ItemOk(s) && Lacks(s, '\n') }

  predicate ItemsOk(items: seq<string>) { forall x :: x in items ==> ItemOk(x) }

  predicate OptOk(o: Option<string>) { o.Some? ==> StrOk(o.value) }

  predicate DefaultsOk(d: Defaults) {
    && d.ttl <= UINT_MAX && d.maxCommandLen <= UINT_MAX
    && ItemsOk(d.envKeep) && OptOk(d.includeDir) && StrOk(d.sessionLogDir)
  }

  predicate RuleOk(r: Rule) {
    && OptOk(r.user) && OptOk(r.group) && StrOk(r.runAs)
    && ItemsOk(r.commands) && ItemsOk(r.denyCommands) && ItemsOk(r.capabilities)
    && StrOk(r.description) && StrOk(r.selinuxContext) && StrOk(r.apparmorProfile)
  }

  predicate PolicyOk(p: Policy) {
    DefaultsOk(p.defaults) && forall r :: r in p.rules ==> RuleOk(r)
  }

  // ---- Values read back ------------------------------------------------------------------

  lemma {:induction false} PlainHasNoComment(s: string, q: bool)
    requires Lacks(s, '"') && (q || Lacks(s, '#'))
    ensures CommentAt(s, q) == |s| && InStr(s, q) == q
  {
    if s != [] { PlainHasNoComment(s[1..], q); }
  }

  lemma QuotedReadsBack(s: string)
    requires StrOk(s)
    ensures Unquote(Quoted(s)) == s && ValueOk(Quoted(s), None)
  {
    var v := Quoted(s);
    assert v[1..] == s + "\"";
    PlainHasNoComment(s, true);
    CommentAfter(s, "\"", true);
  }

  lemma DecReadsBack(n: nat)
    requires n <= UINT_MAX
    ensures IntOf(Dec(n)) == n && ValueOk(Dec(n), None)
  {
    DecValueOfDec(n);
    PlainHasNoComment(Dec(n), false);
  }

  lemma FlagReadsBack(b: bool)
    ensures BoolOf(FlagText(b)) == Some(b) && ValueOk(FlagText(b), None)
  {
    PlainHasNoComment(FlagText(b), false);
  }

  predicate ListKey(k: Key) { k.EnvKeep? || k.Commands? || k.DenyCommands? || k.Capabilities? }

  lemma ListNamesAreNotScalar(k: Key)
    requires ListKey(k)
    ensures !ScalarKey(Name(k))
  {
  }

  lemma ListElems(k: Key, items: seq<string>)
    requires ItemsOk(items)
    ensures var es := ListLine(k, items).elems;
            && Rest(es, "") && (forall e :: e in es ==> ElemBalanced(e)) && ItemsOf(es) == items
  {
    hide Name, Walk;
    var es := ListLine(k, items).elems;
    forall e | e in es ensures ElemOk(e) && ElemBalanced(e) {
      var i :| 0 <= i < |es| && es[i] == e;
      assert items[i] in items;
    }
  }

  lemma ListReadsBack(k: Key, items: seq<string>)
    requires ItemsOk(items) && ListKey(k)
    ensures LineOk(ListLine(k, items)) && ItemsOf(ListLine(k, items).elems) == items
  {
    hide Rest, ItemsOf, ElemBalanced, Balanced, KeyOk, ElemsText, ItemsOk, ScalarKey, Name;
    NameOk(k);
    ListNamesAreNotScalar(k);
    ListElems(k, items);
    BalancedElems(ListLine(k, items).elems, "");
    assert ListLine(k, items).last == "";
  }

  // ---- Meaning of the printed lines ------------------------------------------------------

  /** Printing `ls` is well formed and takes the parser from one state to the other. */
  ghost predicate Leads(ls: seq<Line>, st: PState, st': PState) {
    && PolicySpec.Valid(st) && PolicySpec.Valid(st')
    && (forall l :: l in ls ==> LineOk(l))
    && Meaning(ls, st) == st'
  }

  lemma LeadsThrough(a: seq<Line>, b: seq<Line>, s0: PState, s1: PState, s2: PState)
    requires Leads(a, s0, s1) && Leads(b, s1, s2)
    ensures Leads(a + b, s0, s2)
  {
    MeaningAppend(a, b, s0);
  }

  lemma LeadsLine(l: Line, st: PState)
    requires LineOk(l) && PolicySpec.Valid(st)
    ensures Leads([l], st, LineMeaning(l, st))
  {
  }

  function InDefaults(d: Defaults): PState {
    PState(Policy(d, []), DefaultsSection)
  }

  function InRule(p: Policy, r: Rule): PState {
    PState(p.(rules := p.rules + [r]), RuleSection)
  }

  lemma LeadsEntry(k: Key, value: string, st: PState)
    requires ValueOk(value, None) && PolicySpec.Valid(st)
    ensures Leads([EntryLine(k, value)], st, Assign(st, Name(k), value))
  {
    hide ValueOk, KeyOk, Assign, Name;
    NameOk(k);
    LeadsLine(EntryLine(k, value), st);
  }

  lemma ThenDefault(h: seq<Line>, d: Defaults, k: Key, value: string, d': Defaults)
    requires Leads(h, START, InDefaults(d)) && ValueOk(value, None)
    requires DefaultsSet(d, Name(k), value) == d'
    ensures Leads(h + [EntryLine(k, value)], START, InDefaults(d'))
  {
    hide DefaultsSet, ValueOk, Name, EntryLine;
    LeadsEntry(k, value, InDefaults(d));
    LeadsThrough(h, [EntryLine(k, value)], START, InDefaults(d), InDefaults(d'));
  }

  lemma ThenRule(h: seq<Line>, s0: PState, p: Policy, r: Rule, k: Key, value: string, r': Rule)
    requires Leads(h, s0, InRule(p, r)) && ValueOk(value, None)
    requires RuleSet(r, Name(k), value) == r'
    ensures Leads(h + [EntryLine(k, value)], s0, InRule(p, r'))
  {
    hide RuleSet, ValueOk, Name, EntryLine;
    LeadsEntry(k, value, InRule(p, r));
    assert Assign(InRule(p, r), Name(k), value).policy.rules == InRule(p, r').policy.rules;
    LeadsThrough(h, [EntryLine(k, value)], s0, InRule(p, r), InRule(p, r'));
  }

  lemma ThenList(h: seq<Line>, s0: PState, s1: PState, k: Key, items: seq<string>)
    requires Leads(h, s0, s1) && ItemsOk(items) && ListKey(k)
    ensures Leads(h + [ListLine(k, items)], s0, AssignList(s1, Name(k), items))
  {
    hide ItemsOk, AssignList, LineOk, Name;
    ListReadsBack(k, items);
    LeadsLine(ListLine(k, items), s1);
    LeadsThrough(h, [ListLine(k, items)], s0, s1, AssignList(s1, Name(k), items));
  }

  // ---- The [defaults] table, one key after the other -------------------------------------

  predicate DFlagKey(k: Key) {
    k.RequireAuth? || k.AuditLog? || k.LogSession? || k.LogInput? || k.NssGroups?
  }

  function DFlagSet(d: Defaults, k: Key, b: bool): Defaults {
    match k
    case RequireAuth => d.(requireAuth := b)
    case AuditLog => d.(auditLog := b)
    case LogSession => d.(logSession := b)
    case LogInput => d.(logInput := b)
    case _ => d.(nssGroups := b)
  }

  lemma DFlagReadsBack(d: Defaults, k: Key, b: bool)
    requires DFlagKey(k)
    ensures DefaultsSet(d, Name(k), FlagText(b)) == DFlagSet(d, k, b)
  {
    hide StrArray, IntOf, Unquote;
    FlagReadsBack(b);
    assert "log_session"[0] != "include_dir"[0] && "audit_log"[0] != "log_input"[0];
  }

  lemma DFlag(h: seq<Line>, d: Defaults, k: Key, b: bool, skip: bool)
    returns (h': seq<Line>, d': Defaults)
    requires Leads(h, START, InDefaults(d)) && DFlagKey(k) && (skip ==> d == DFlagSet(d, k, b))
    ensures h' == h + Unless(skip, FlagLine(k, b)) && d' == DFlagSet(d, k, b)
    ensures Leads(h', START, InDefaults(d'))
  {
    hide Leads, DefaultsSet, ValueOk, DFlagSet, Name, DFlagKey, EntryLine;
    h', d' := h + Unless(skip, FlagLine(k, b)), DFlagSet(d, k, b);
    if skip { assert h' == h; return; }
    FlagReadsBack(b);
    DFlagReadsBack(d, k, b);
    ThenDefault(h, d, k, FlagText(b), d');
  }

  lemma DNumReadsBack(d: Defaults, n: nat)
    requires n <= UINT_MAX
    ensures DefaultsSet(d, Name(TimestampTtl), Dec(n)) == d.(ttl := n)
    ensures DefaultsSet(d, Name(MaxCommandLen), Dec(n)) == d.(maxCommandLen := n)
  {
    hide StrArray, BoolOf, IntOf, Unquote;
    DecReadsBack(n);
  }

  lemma DNum(h: seq<Line>, d: Defaults, k: Key, n: nat, skip: bool)
    returns (h': seq<Line>, d': Defaults)
    requires Leads(h, START, InDefaults(d)) && n <= UINT_MAX && (k.TimestampTtl? || k.MaxCommandLen?)
    requires skip ==> n == if k.TimestampTtl? then d.ttl else d.maxCommandLen
    ensures h' == h + Unless(skip, NumLine(k, n))
    ensures d' == if k.TimestampTtl? then d.(ttl := n) else d.(maxCommandLen := n)
    ensures Leads(h', START, InDefaults(d'))
  {
    hide Leads, DefaultsSet, ValueOk, Name, EntryLine;
    h' := h + Unless(skip, NumLine(k, n));
    d' := if k.TimestampTtl? then d.(ttl := n) else d.(maxCommandLen := n);
    if skip { assert h' == h; return; }
    DecReadsBack(n);
    DNumReadsBack(d, n);
    ThenDefault(h, d, k, Dec(n), d');
  }

  lemma DStrReadsBack(d: Defaults, s: string)
    requires StrOk(s)
    ensures DefaultsSet(d, Name(IncludeDir), Quoted(s)) == d.(includeDir := Some(s))
    ensures DefaultsSet(d, Name(SessionLogDir), Quoted(s)) == d.(sessionLogDir := s)
  {
    hide StrArray, BoolOf, IntOf, Unquote;
    QuotedReadsBack(s);
    assert "session_log_dir"[0] != "max_command_len"[0];
  }

  lemma DStr(h: seq<Line>, d: Defaults, k: Key, s: string, skip: bool)
    returns (h': seq<Line>, d': Defaults)
    requires Leads(h, START, InDefaults(d)) && StrOk(s) && (k.IncludeDir? || k.SessionLogDir?)
    requires skip ==> k.SessionLogDir? && d.sessionLogDir == s
    ensures h' == h + Unless(skip, StrLine(k, s))
    ensures d' == if k.IncludeDir? then d.(includeDir := Some(s)) else d.(sessionLogDir := s)
    ensures Leads(h', START, InDefaults(d'))
  {
    hide Leads, DefaultsSet, ValueOk, Name, EntryLine, StrOk;
    h' := h + Unless(skip, StrLine(k, s));
    d' := if k.IncludeDir? then d.(includeDir := Some(s)) else d.(sessionLogDir := s);
    if skip { assert h' == h; return; }
    QuotedReadsBack(s);
    DStrReadsBack(d, s);
    ThenDefault(h, d, k, Quoted(s), d');
  }

  lemma DOpt(h: seq<Line>, d: Defaults, o: Option<string>)
    returns (h': seq<Line>, d': Defaults)
    requires Leads(h, START, InDefaults(d)) && OptOk(o)
    ensures h' == h + OptStr(IncludeDir, o) && d' == if o.Some? then d.(includeDir := o) else d
    ensures Leads(h', START, InDefaults(d'))
  {
    hide Leads, StrOk, StrLine;
    h', d' := h, d;
    if o.Some? {
      h', d' := DStr(h, d, IncludeDir, o.value, false);
    } else {
      assert h + [] == h;
    }
  }

  lemma DList(h: seq<Line>, d: Defaults, items: seq<string>, skip: bool)
    returns (h': seq<Line>, d': Defaults)
    requires Leads(h, START, InDefaults(d)) && ItemsOk(items) && (skip ==> d.envKeep == items)
    ensures h' == h + Unless(skip, ListLine(EnvKeep, items)) && d' == d.(envKeep := items)
    ensures Leads(h', START, InDefaults(d'))
  {
    hide Leads, ItemsOk, ListLine;
    h', d' := h + Unless(skip, ListLine(EnvKeep, items)), d.(envKeep := items);
    if skip { assert h' == h; return; }
    ThenList(h, START, InDefaults(d), EnvKeep, items);
  }

  lemma DefaultsHead(d: Defaults, o: Omit) returns (v: Defaults)
    requires DefaultsOk(d)
    ensures v == Defaults(d.ttl, d.requireAuth, d.auditLog, d.envKeep, d.maxCommandLen,
                          None, false, LOG_DIR, false, false)
    ensures Leads(FirstDefaults(d, o), START, InDefaults(v))
  {
    hide Leads, ItemsOk, StrOk, FlagLine, NumLine, ListLine, InDefaults, DEFAULTS_HEADER, Unless;
    HeadersLead(START);
    var h;
    h, v := [DEFAULTS_HEADER], NEW_DEFAULTS;
    h, v := DNum(h, v, TimestampTtl, d.ttl, o(TimestampTtl) && d.ttl == 300);
    h, v := DFlag(h, v, RequireAuth, d.requireAuth, o(RequireAuth) && d.requireAuth == true);
    h, v := DFlag(h, v, AuditLog, d.auditLog, o(AuditLog) && d.auditLog == true);
    h, v := DList(h, v, d.envKeep, o(EnvKeep) && d.envKeep == []);
    h, v := DNum(h, v, MaxCommandLen, d.maxCommandLen, o(MaxCommandLen) && d.maxCommandLen == 4096);
  }

  lemma DefaultsMiddle(d: Defaults, o: Omit) returns (v: Defaults)
    requires DefaultsOk(d)
    ensures v == d.(logInput := false, nssGroups := false)
    ensures Leads(MiddleDefaults(d, o), START, InDefaults(v))
  {
    hide Leads, ItemsOk, StrOk, FlagLine, StrLine, InDefaults, OptStr, Unless, FirstDefaults, LOG_DIR, NEW_DEFAULTS;
    var h := FirstDefaults(d, o);
    v := DefaultsHead(d, o);
    h, v := DOpt(h, v, d.includeDir);
    h, v := DFlag(h, v, LogSession, d.logSession, o(LogSession) && d.logSession == false);
    h, v := DStr(h, v, SessionLogDir, d.sessionLogDir, o(SessionLogDir) && d.sessionLogDir == LOG_DIR);
  }

  /** The printed `[defaults]` table takes a fresh parser to exactly these defaults, entries left out
      included. */
  lemma DefaultsRoundTrip(d: Defaults, o: Omit)
    requires DefaultsOk(d)
    ensures Leads(DefaultsLines(d, o), START, InDefaults(d))
  {
    hide Leads, FlagLine, InDefaults, Unless, MiddleDefaults, LOG_DIR, NEW_DEFAULTS, DefaultsOk;
    var h := MiddleDefaults(d, o);
    var v := DefaultsMiddle(d, o);
    h, v := DFlag(h, v, LogInput, d.logInput, o(LogInput) && d.logInput == false);
    h, v := DFlag(h, v, NssGroups, d.nssGroups, o(NssGroups) && d.nssGroups == false);
    assert v == d;
  }

  lemma HeadersLead(st: PState)
    requires PolicySpec.Valid(st)
    ensures Leads([DEFAULTS_HEADER], START, InDefaults(NEW_DEFAULTS))
    ensures Leads([RULE_HEADER], st, InRule(st.policy, NEW_RULE))
  {
    LeadsLine(DEFAULTS_HEADER, START);
    LeadsLine(RULE_HEADER, st);
  }

  // ---- A [[rules]] table, one key after the other ----------------------------------------

  predicate RStrKey(k: Key) {
    k.User? || k.Group? || k.RunAs? || k.Description? || k.SelinuxContext? || k.ApparmorProfile?
  }

  function RStrSet(r: Rule, k: Key, s: string): Rule {
    match k
    case User => r.(user := Some(s))
    case Group => r.(group := Some(s))
    case RunAs => r.(runAs := s)
    case Description => r.(description := s)
    case SelinuxContext => r.(selinuxContext := s)
    case _ => r.(apparmorProfile := s)
  }

  lemma RStrReadsBack(r: Rule, k: Key, s: string)
    requires StrOk(s) && RStrKey(k)
    ensures RuleSet(r, Name(k), Quoted(s)) == RStrSet(r, k, s)
  {
    hide StrArray, BoolOf, Unquote, StrOk, ValueOk, Quoted;
    QuotedReadsBack(s);
  }

  lemma RStr(h: seq<Line>, s0: PState, p: Policy, r: Rule, k: Key, s: string, skip: bool)
    returns (h': seq<Line>, r': Rule)
    requires Leads(h, s0, InRule(p, r)) && StrOk(s) && RStrKey(k) && (skip ==> r == RStrSet(r, k, s))
    ensures h' == h + Unless(skip, StrLine(k, s)) && r' == RStrSet(r, k, s)
    ensures Leads(h', s0, InRule(p, r'))
  {
    hide Leads, RuleSet, ValueOk, Name, EntryLine, StrOk, RStrKey, RStrSet;
    h', r' := h + Unless(skip, StrLine(k, s)), RStrSet(r, k, s);
    if skip { assert h' == h; return; }
    QuotedReadsBack(s);
    RStrReadsBack(r, k, s);
    ThenRule(h, s0, p, r, k, Quoted(s), r');
  }

  predicate RFlagKey(k: Key) { k.RequireAuth? || k.LogSession? || k.LogInput? }

  function RFlagSet(r: Rule, k: Key, b: bool): Rule {
    match k
    case RequireAuth => r.(requireAuth := b)
    case LogSession => r.(logSession := Some(b))
    case _ => r.(logInput := Some(b))
  }

  lemma RFlagReadsBack(r: Rule, k: Key, b: bool)
    requires RFlagKey(k)
    ensures RuleSet(r, Name(k), FlagText(b)) == RFlagSet(r, k, b)
  {
    hide StrArray, Unquote;
    FlagReadsBack(b);
    assert "log_session"[0] != "description"[0] && "require_auth"[0] != "capabilities"[0];
  }

  lemma RFlag(h: seq<Line>, s0: PState, p: Policy, r: Rule, k: Key, b: bool, skip: bool)
    returns (h': seq<Line>, r': Rule)
    requires Leads(h, s0, InRule(p, r)) && RFlagKey(k) && (skip ==> r == RFlagSet(r, k, b))
    ensures h' == h + Unless(skip, FlagLine(k, b)) && r' == RFlagSet(r, k, b)
    ensures Leads(h', s0, InRule(p, r'))
  {
    hide Leads, RuleSet, ValueOk, Name, EntryLine, RFlagKey, RFlagSet;
    h', r' := h + Unless(skip, FlagLine(k, b)), RFlagSet(r, k, b);
    if skip { assert h' == h; return; }
    FlagReadsBack(b);
    RFlagReadsBack(r, k, b);
    ThenRule(h, s0, p, r, k, FlagText(b), r');
  }

  predicate RListKey(k: Key) { k.Commands? || k.DenyCommands? || k.Capabilities? }

  function RListSet(r: Rule, k: Key, items: seq<string>): Rule {
    match k
    case Commands => r.(commands := items)
    case DenyCommands => r.(denyCommands := items)
    case _ => r.(capabilities := items)
  }

  lemma RList(h: seq<Line>, s0: PState, p: Policy, r: Rule, k: Key, items: seq<string>, skip: bool)
    returns (h': seq<Line>, r': Rule)
    requires Leads(h, s0, InRule(p, r)) && ItemsOk(items) && RListKey(k) && (skip ==> r == RListSet(r, k, items))
    ensures h' == h + Unless(skip, ListLine(k, items)) && r' == RListSet(r, k, items)
    ensures Leads(h', s0, InRule(p, r'))
  {
    hide Leads, ItemsOk, ListLine;
    h', r' := h + Unless(skip, ListLine(k, items)), RListSet(r, k, items);
    if skip { assert h' == h; return; }
    ThenList(h, s0, InRule(p, r), k, items);
    assert SetList(r, Name(k), items) == r';
    assert AssignList(InRule(p, r), Name(k), items).policy.rules == InRule(p, r').policy.rules;
  }

  lemma ROptStr(h: seq<Line>, s0: PState, p: Policy, r: Rule, k: Key, o: Option<string>)
    returns (h': seq<Line>, r': Rule)
    requires Leads(h, s0, InRule(p, r)) && OptOk(o) && RStrKey(k)
    ensures h' == h + OptStr(k, o) && r' == if o.Some? then RStrSet(r, k, o.value) else r
    ensures Leads(h', s0, InRule(p, r'))
  {
    hide Leads, StrOk, StrLine, InRule;
    h', r' := h, r;
    if o.Some? {
      h', r' := RStr(h, s0, p, r, k, o.value, false);
    } else {
      assert h + [] == h;
    }
  }

  lemma ROptFlag(h: seq<Line>, s0: PState, p: Policy, r: Rule, k: Key, o: Option<bool>)
    returns (h': seq<Line>, r': Rule)
    requires Leads(h, s0, InRule(p, r)) && RFlagKey(k)
    ensures h' == h + OptFlag(k, o) && r' == if o.Some? then RFlagSet(r, k, o.value) else r
    ensures Leads(h', s0, InRule(p, r'))
  {
    hide Leads, FlagLine, InRule;
    h', r' := h, r;
    if o.Some? {
      h', r' := RFlag(h, s0, p, r, k, o.value, false);
    } else {
      assert h + [] == h;
    }
  }

  lemma RuleHead(p: Policy, r: Rule, st: PState, o: Omit) returns (v: Rule)
    requires RuleOk(r) && PolicySpec.Valid(st) && st.policy == p
    ensures v == NEW_RULE.(user := r.user, group := r.group, runAs := r.runAs, commands := r.commands)
    ensures Leads(FirstOfRule(r, o), st, InRule(p, v))
  {
    hide Leads, ItemsOk, StrOk, StrLine, ListLine, InRule, OptStr, RULE_HEADER, Unless;
    HeadersLead(st);
    var h;
    h, v := [RULE_HEADER], NEW_RULE;
    h, v := ROptStr(h, st, p, v, User, r.user);
    h, v := ROptStr(h, st, p, v, Group, r.group);
    h, v := RStr(h, st, p, v, RunAs, r.runAs, o(RunAs) && r.runAs == "root");
    h, v := RList(h, st, p, v, Commands, r.commands, o(Commands) && r.commands == []);
  }

  lemma RuleMiddle(p: Policy, r: Rule, st: PState, o: Omit) returns (v: Rule)
    requires RuleOk(r) && PolicySpec.Valid(st) && st.policy == p
    ensures v == NEW_RULE.(user := r.user, group := r.group, runAs := r.runAs, commands := r.commands,
                           denyCommands := r.denyCommands, requireAuth := r.requireAuth,
                           description := r.description, capabilities := r.capabilities)
    ensures Leads(MiddleOfRule(r, o), st, InRule(p, v))
  {
    hide Leads, ItemsOk, StrOk, StrLine, FlagLine, ListLine, InRule, FirstOfRule, Unless;
    var h := FirstOfRule(r, o);
    v := RuleHead(p, r, st, o);
    h, v := RList(h, st, p, v, DenyCommands, r.denyCommands, o(DenyCommands) && r.denyCommands == []);
    h, v := RFlag(h, st, p, v, RequireAuth, r.requireAuth, o(RequireAuth) && r.requireAuth == true);
    h, v := RStr(h, st, p, v, Description, r.description, o(Description) && r.description == "");
    h, v := RList(h, st, p, v, Capabilities, r.capabilities, o(Capabilities) && r.capabilities == []);
  }

  /** A printed `[[rules]]` table appends exactly this rule, entries left out included. */
  lemma RuleRoundTrip(p: Policy, r: Rule, st: PState, o: Omit)
    requires RuleOk(r) && PolicySpec.Valid(st) && st.policy == p
    ensures Leads(RuleLines(r, o), st, InRule(p, r))
  {
    hide Leads, ItemsOk, StrOk, StrLine, InRule, OptFlag, MiddleOfRule, Unless;
    var h := MiddleOfRule(r, o);
    var v := RuleMiddle(p, r, st, o);
    h, v := ROptFlag(h, st, p, v, LogSession, r.logSession);
    h, v := RStr(h, st, p, v, SelinuxContext, r.selinuxContext, o(SelinuxContext) && r.selinuxContext == "");
    h, v := RStr(h, st, p, v, ApparmorProfile, r.apparmorProfile, o(ApparmorProfile) && r.apparmorProfile == "");
    h, v := ROptFlag(h, st, p, v, LogInput, r.logInput);
    assert v == r;
  }

  lemma {:induction false} RulesRoundTrip(d: Defaults, rs: seq<Rule>, o: Omit)
    requires forall r :: r in rs ==> RuleOk(r)
    ensures exists st: PState :: st.policy == Policy(d, rs) && Leads(RulesLines(rs, o), InDefaults(d), st)
  {
    hide Leads, RuleLines, InDefaults;
    if rs == [] {
      DefaultsState(d);
      LeadsNothing(InDefaults(d));
    } else {
      var init, last := rs[..|rs| - 1], rs[|rs| - 1];
      RulesRoundTrip(d, init, o);
      var st: PState :| st.policy == Policy(d, init) && Leads(RulesLines(init, o), InDefaults(d), st);
      LeadsValid(RulesLines(init, o), InDefaults(d), st);
      RuleRoundTrip(Policy(d, init), last, st, o);
      LeadsThrough(RulesLines(init, o), RuleLines(last, o), InDefaults(d), st, InRule(Policy(d, init), last));
      assert init + [last] == rs;
      assert InRule(Policy(d, init), last).policy == Policy(d, rs);
    }
  }

  lemma DefaultsState(d: Defaults)
    ensures PolicySpec.Valid(InDefaults(d)) && InDefaults(d).policy == Policy(d, [])
  {
  }

  lemma LeadsNothing(st: PState)
    requires PolicySpec.Valid(st)
    ensures Leads([], st, st)
  {
  }

  lemma LeadsValid(ls: seq<Line>, st: PState, st': PState)
    requires Leads(ls, st, st')
    ensures PolicySpec.Valid(st') && (forall l :: l in ls ==> LineOk(l)) && Meaning(ls, st) == st'
  {
  }

  /** THE ROUND TRIP.  Parsing a rendering of a policy gives back exactly that policy: defaults, rule
      order, absent optionals and inherited tri-states, whichever of the entries that only repeat a
      default are left out. */
  lemma SparseRoundTrip(p: Policy, o: Omit)
    requires PolicyOk(p)
    ensures ParsePolicy(RenderSparse(p, o)) == p
  {
    hide Leads, DefaultsOk, RuleOk, DefaultsLines, RulesLines, LinesText, Parse, Meaning, LineOk;
    var d := p.defaults;
    DefaultsRoundTrip(d, o);
    RulesRoundTrip(d, p.rules, o);
    var st: PState :| st.policy == Policy(d, p.rules) && Leads(RulesLines(p.rules, o), InDefaults(d), st);
    LeadsThrough(DefaultsLines(d, o), RulesLines(p.rules, o), START, InDefaults(d), st);
    LeadsValid(PolicyLines(p, o), START, st);
    LinesParse(PolicyLines(p, o), "", START);
    assert RenderSparse(p, o) + "" == RenderSparse(p, o);
    ParseNil(st);
  }

  /** The canonical rendering, with every entry written out. */
  lemma RoundTrip(p: Policy)
    requires PolicyOk(p)
    ensures ParsePolicy(Render(p)) == p
  {
    hide ParsePolicy, PolicyOk, LinesText;
    SparseRoundTrip(p, (k: Key) => false);
  }

  /** A rule that says nothing but whom it is for: as root, every command, with authentication, no
      capability list, no contexts, and logging as the defaults say. */
  lemma SilentRule(user: string)
    requires StrOk(user)
    ensures var text := LinesText([RULE_HEADER] + [StrLine(User, user)]);
            ParsePolicy(text) ==
              Policy(Defaults(300, true, true, [], 4096, None, false, "/var/log/agnos/sessions", false, false),
                     [Rule(Some(user), None, "root", [], [], true, "", [], None, "", "", None)])
  {
    hide Leads, LinesText, Parse, Meaning, LineOk, StrOk, StrLine, Unless;
    var r := Rule(Some(user), None, "root", [], [], true, "", [], None, "", "", None);
    var ls := [RULE_HEADER] + [StrLine(User, user)];
    SilentLines(user);
    RuleRoundTrip(START.policy, r, START, (k: Key) => true);
    var st := InRule(START.policy, r);
    LeadsValid(ls, START, st);
    LinesParse(ls, "", START);
    assert LinesText(ls) + "" == LinesText(ls);
    ParseNil(st);
  }

  lemma SilentLines(user: string)
    requires StrOk(user)
    ensures var r := Rule(Some(user), None, "root", [], [], true, "", [], None, "", "", None);
            RuleOk(r) && RuleLines(r, (k: Key) => true) == [RULE_HEADER] + [StrLine(User, user)]
  {
    hide StrLine, ListLine, FlagLine;
  }

  // ---- What an entry means, for every text -----------------------------------------------

  /** A flag is set by exactly four texts; any other leaves the record alone. */
  lemma FlagEntry(d: Defaults, r: Rule, k: Key, raw: string)
    ensures DFlagKey(k) ==>
              (DefaultsSet(d, Name(k), raw) ==
                 if raw == "true" || raw == "True" then DFlagSet(d, k, true)
                 else if raw == "false" || raw == "False" then DFlagSet(d, k, false)
                 else d)
    ensures RFlagKey(k) ==>
              (RuleSet(r, Name(k), raw) ==
                 if raw == "true" || raw == "True" then RFlagSet(r, k, true)
                 else if raw == "false" || raw == "False" then RFlagSet(r, k, false)
                 else r)
  {
    hide StrArray, IntOf, Unquote, BoolOf;
    FlagTexts(raw);
    assert "log_session"[0] != "include_dir"[0] && "audit_log"[0] != "log_input"[0];
    assert "log_session"[0] != "description"[0] && "require_auth"[0] != "capabilities"[0];
  }

  lemma FlagTexts(raw: string)
    ensures BoolOf(raw) == if raw == "true" || raw == "True" then Some(true)
                           else if raw == "false" || raw == "False" then Some(false)
                           else None
  {
  }

  /** A number is set by a nonempty string of digits up to the cap; any other text leaves it alone. */
  lemma NumberEntry(d: Defaults, raw: string)
    ensures var usable := raw != "" && AllDigits(raw) && DecValue(raw) <= 4294967295;
            && DefaultsSet(d, Name(TimestampTtl), raw) == (if usable then d.(ttl := DecValue(raw)) else d)
            && DefaultsSet(d, Name(MaxCommandLen), raw) == (if usable then d.(maxCommandLen := DecValue(raw)) else d)
  {
    hide StrArray, BoolOf, Unquote;
  }

  /** A text loses one pair of equal quotes of either kind around it, and nothing else. */
  lemma TextEntry(s: string, q: char)
    requires q == '"' || q == '\''
    ensures Unquote([q] + s + [q]) == s
    ensures (s == "" || (s[0] != '"' && s[0] != '\'') || s[0] != s[|s| - 1] || |s| == 1) ==> Unquote(s) == s
  {
    var v := [q] + s + [q];
    assert v[1..|v| - 1] == s;
  }

  /** Keys of the other table, and keys of neither, are ignored. */
  lemma OtherKeysIgnored(d: Defaults, r: Rule, key: string, raw: string)
    ensures key !in ["timestamp_ttl", "require_auth", "audit_log", "env_keep", "max_command_len", "include_dir",
                     "log_session", "session_log_dir", "log_input", "nss_groups"] ==>
              DefaultsSet(d, key, raw) == d
    ensures key !in ["user", "group", "run_as", "commands", "deny_commands", "require_auth", "description",
                     "capabilities", "log_session", "selinux_context", "apparmor_profile", "log_input"] ==>
              RuleSet(r, key, raw) == r
  {
    hide StrArray, BoolOf, Unquote, IntOf;
  }
}
