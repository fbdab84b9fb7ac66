/** Authorization: the rule loop, the original loop it was ported from, and what both promise about
    a whole policy. */
module Authorization {
  import opened Text
  import opened PolicySpec
  import opened Matcher

  datatype Request = Request(caller: string, groups: seq<string>, target: string, command: string)

  datatype Authz =
    | Denied(reason: string)
    | Allowed(requireAuth: bool, capabilities: seq<string>, logSession: bool,
              selinux: string, apparmor: string, logInput: bool)

  const EXPLICIT := "command explicitly denied by rule"
  const NO_RULE := "no matching rule"

  type PatternRelation = (string, string) -> bool

  // ---- Specification ---------------------------------------------------------------------

  datatype Verdict = Passes | Denies | Allows

  predicate UserMatches(r: Rule, q: Request) {
    r.user == Some("*") || r.user == Some(q.caller)
  }

  predicate GroupMatches(r: Rule, q: Request) {
    r.group.Some? && r.group.value in q.groups
  }

  predicate Applies(r: Rule, q: Request) {
    (UserMatches(r, q) || GroupMatches(r, q)) && (r.runAs == "*" || r.runAs == q.target)
  }

  predicate Hit(m: PatternRelation, command: string, patterns: seq<string>) {
    exists i :: 0 <= i < |patterns| && m(command, patterns[i])
  }

  /** What one rule says about a request: deny patterns first, then allow patterns, and an empty
      command list allows everything. */
  function VerdictOf(m: PatternRelation, r: Rule, q: Request): Verdict {
    if !Applies(r, q) then Passes
    else if Hit(m, q.command, r.denyCommands) then Denies
    else if r.commands == [] || Hit(m, q.command, r.commands) then Allows
    else Passes
  }

  function Effective(flag: Option<bool>, inherited: bool): bool {
    if flag.Some? then flag.value else inherited
  }

  function Grant(r: Rule, d: Defaults): Authz {
    Allowed(r.requireAuth && d.requireAuth, r.capabilities, Effective(r.logSession, d.logSession),
            r.selinuxContext, r.apparmorProfile, Effective(r.logInput, d.logInput))
  }

  /** `k` is the first rule with a verdict, or the number of rules when none has one. */
  predicate FirstDecisive(m: PatternRelation, rules: seq<Rule>, q: Request, k: nat) {
    && k <= |rules|
    && (forall i :: 0 <= i < k ==> VerdictOf(m, rules[i], q).Passes?)
    && (k < |rules| ==> !VerdictOf(m, rules[k], q).Passes?)
  }

  function OutcomeAt(m: PatternRelation, p: Policy, q: Request, k: nat): Authz
    requires k <= |p.rules|
  {
    if k == |p.rules| then Denied(NO_RULE)
    else if VerdictOf(m, p.rules[k], q).Denies? then Denied(EXPLICIT)
    else Grant(p.rules[k], p.defaults)
  }

  /** The outcome of the first decisive rule, denied when there is none. */
  ghost predicate IsOutcome(m: PatternRelation, p: Policy, q: Request, a: Authz) {
    exists k: nat :: FirstDecisive(m, p.rules, q, k) && a == OutcomeAt(m, p, q, k)
  }

  lemma {:induction false} DecisiveExists(m: PatternRelation, rules: seq<Rule>, q: Request) returns (k: nat)
    ensures FirstDecisive(m, rules, q, k)
  {
    if rules == [] || !VerdictOf(m, rules[0], q).Passes? {
      k := 0;
    } else {
      var j := DecisiveExists(m, rules[1..], q);
      k := j + 1;
      assert forall i :: 0 < i < k ==> rules[i] == rules[1..][i - 1];
    }
  }

  /** Every request has exactly one outcome. */
  lemma OutcomeUnique(m: PatternRelation, p: Policy, q: Request)
    ensures exists a :: IsOutcome(m, p, q, a)
    ensures forall a, b :: IsOutcome(m, p, q, a) && IsOutcome(m, p, q, b) ==> a == b
  {
    var k := DecisiveExists(m, p.rules, q);
    assert IsOutcome(m, p, q, OutcomeAt(m, p, q, k));
  }

  ghost function CyriusMatches(): PatternRelation {
    (c, p) => Matches(c, p)
  }

  // ---- The loops -------------------------------------------------------------------------

  method AnyMatches(command: string, patterns: seq<string>) returns (hit: bool)
    ensures hit <==> Hit(CyriusMatches(), command, patterns)
  {
    var i := 0;
    while i < |patterns|
      invariant 0 <= i <= |patterns|
      invariant forall j :: 0 <= j < i ==> !Matches(command, patterns[j])
    {
      var m := CommandMatches(command, patterns[i]);
      if m { return true; }
      i := i + 1;
    }
    hit := false;
  }

  method InGroups(g: string, groups: seq<string>) returns (found: bool)
    ensures found <==> g in groups
  {
    found := false;
    var gi := 0;
    while gi < |groups|
      invariant 0 <= gi <= |groups|
      invariant found ==> g in groups
      invariant !found ==> g !in groups[..gi]
    {
      if g == groups[gi] { found := true; gi := |groups|; }
      else { gi := gi + 1; }
    }
  }

  method CheckAuthorization(policy: Policy, q: Request) returns (a: Authz)
    ensures IsOutcome(CyriusMatches(), policy, q, a)
  {
    var rules := policy.rules;
    var i := 0;
    while i < |rules|
      invariant 0 <= i <= |rules|
      invariant forall j :: 0 <= j < i ==> VerdictOf(CyriusMatches(), rules[j], q).Passes?
    {
      var r := rules[i];
      var userMatches, groupMatches := false, false;
      if r.user.Some? {
        if r.user.value == "*" { userMatches := true; }
        else if r.user.value == q.caller { userMatches := true; }
      }
      if r.group.Some? {
        groupMatches := InGroups(r.group.value, q.groups);
      }
      if !userMatches && !groupMatches { i := i + 1; continue; }
      if r.runAs == "*" || r.runAs == q.target {
        assert Applies(r, q);
        var denied := AnyMatches(q.command, r.denyCommands);
        if denied {
          assert FirstDecisive(CyriusMatches(), rules, q, i);
          return Denied(EXPLICIT);
        }
        var allowed := |r.commands| == 0;
        if !allowed { allowed := AnyMatches(q.command, r.commands); }
        if allowed {
          assert FirstDecisive(CyriusMatches(), rules, q, i);
          return Grant(r, policy.defaults);
        }
      }
      i := i + 1;
    }
    assert FirstDecisive(CyriusMatches(), rules, q, i);
    a := Denied(NO_RULE);
  }

  /** What the original returns: it carries no exec settings, only the authentication flag. */
  datatype RustAuthz = RustDenied | RustAllowed(requireAuth: bool)

  function AsRust(a: Authz): RustAuthz {
    match a
    case Denied(_) => RustDenied
    case Allowed(requireAuth, _, _, _, _, _) => RustAllowed(requireAuth)
  }

  /** The original loop: it remembers the matched rule and leaves the loop, and an explicit deny
      returns from inside it. */
  method RustCheckAuthorization(policy: Policy, q: Request) returns (a: RustAuthz)
    ensures exists full :: IsOutcome(RustMatches, policy, q, full) && a == AsRust(full)
  {
    hide RustMatches;
    var matchedRule: Option<Rule> := None;
    ghost var k := |policy.rules|;
    var i := 0;
    while i < |policy.rules|
      invariant 0 <= i <= |policy.rules| && matchedRule.None? && k == |policy.rules|
      invariant forall j :: 0 <= j < i ==> VerdictOf(RustMatches, policy.rules[j], q).Passes?
    {
      var rule := policy.rules[i];
      i := i + 1;
      var userMatches := rule.user.Some? && (rule.user.value == "*" || rule.user.value == q.caller);
      var groupMatches := rule.group.Some? && rule.group.value in q.groups;
      if !userMatches && !groupMatches { continue; }
      if rule.runAs != "*" && rule.runAs != q.target { continue; }
      if Hit(RustMatches, q.command, rule.denyCommands) {
        assert FirstDecisive(RustMatches, policy.rules, q, i - 1);
        assert IsOutcome(RustMatches, policy, q, Denied(EXPLICIT));
        return RustDenied;
      }
      if |rule.commands| == 0 {
        matchedRule, k := Some(rule), i - 1;
        break;
      }
      for c := 0 to |rule.commands|
        invariant matchedRule.None? && !Hit(RustMatches, q.command, rule.commands[..c])
      {
        if RustMatches(q.command, rule.commands[c]) {
          matchedRule, k := Some(rule), i - 1;
          break;
        }
      }
      assert rule.commands[..|rule.commands|] == rule.commands;
      if matchedRule.Some? { break; }
    }
    assert FirstDecisive(RustMatches, policy.rules, q, k);
    assert IsOutcome(RustMatches, policy, q, OutcomeAt(RustMatches, policy, q, k));
    a := if matchedRule.Some?
         then RustAllowed(matchedRule.value.requireAuth && policy.defaults.requireAuth)
         else RustDenied;
  }

  // ---- Whole-policy laws -----------------------------------------------------------------

  /** Patterns on which two relations agree for a command give the same outcome. */
  lemma SameOutcome(m1: PatternRelation, m2: PatternRelation, p: Policy, q: Request, a: Authz)
    requires forall r, x :: r in p.rules && (x in r.commands || x in r.denyCommands) ==>
               m1(q.command, x) == m2(q.command, x)
    ensures IsOutcome(m1, p, q, a) <==> IsOutcome(m2, p, q, a)
  {
    forall i | 0 <= i < |p.rules| ensures VerdictOf(m1, p.rules[i], q) == VerdictOf(m2, p.rules[i], q) {
      var r := p.rules[i];
      assert r in p.rules;
      assert Hit(m1, q.command, r.denyCommands) <==> Hit(m2, q.command, r.denyCommands);
      assert Hit(m1, q.command, r.commands) <==> Hit(m2, q.command, r.commands);
    }
    if IsOutcome(m1, p, q, a) {
      var k: nat :| FirstDecisive(m1, p.rules, q, k) && a == OutcomeAt(m1, p, q, k);
      assert FirstDecisive(m2, p.rules, q, k);
    }
    if IsOutcome(m2, p, q, a) {
      var k: nat :| FirstDecisive(m2, p.rules, q, k) && a == OutcomeAt(m2, p, q, k);
      assert FirstDecisive(m1, p.rules, q, k);
    }
  }


  /** A policy whose directory globs are written canonically. */
  ghost predicate CanonicalPolicy(p: Policy) {
    forall r, x :: r in p.rules && (x in r.commands || x in r.denyCommands) ==> CanonicalPattern(x)
  }

  /** The port decides like the original: on a canonical absolute command, for every policy whose
      directory globs are canonical, both loops give the same answer. */
  lemma PortDecidesLikeOriginal(p: Policy, q: Request, names: seq<string>, a: Authz)
    requires names != [] && NamesOk(names) && Binary(q.command) == Join(names)
    requires CanonicalPolicy(p)
    ensures IsOutcome(CyriusMatches(), p, q, a) <==> IsOutcome(RustMatches, p, q, a)
  {
    hide Matches, RustMatches, Join, Binary, EndsWith;
    forall r, x | r in p.rules && (x in r.commands || x in r.denyCommands)
      ensures CyriusMatches()(q.command, x) == RustMatches(q.command, x)
    {
      assert CanonicalPattern(x);
      var dirs: seq<string> := [];
      if EndsWith(x, "/*") { dirs :| NamesOk(dirs) && x[..|x| - 2] == Join(dirs); }
      AgreesWithRust(q.command, x, names, dirs);
    }
    SameOutcome(CyriusMatches(), RustMatches, p, q, a);
  }

  /** A policy that denies everyone these patterns and nothing else. */
  function DenyOnly(patterns: seq<string>): Policy {
    Policy(NEW_DEFAULTS, [NEW_RULE.(user := Some("*"), runAs := "*", denyCommands := patterns)])
  }

  lemma DenyOnlyOutcome(m: PatternRelation, patterns: seq<string>, q: Request)
    ensures var p := DenyOnly(patterns);
            IsOutcome(m, p, q, if Hit(m, q.command, patterns) then Denied(EXPLICIT) else Grant(p.rules[0], p.defaults))
  {
    assert FirstDecisive(m, DenyOnly(patterns).rules, q, 0);
  }

  /** Both engines give this request the same outcome under this policy. */
  ghost predicate SameDecision(p: Policy, q: Request) {
    forall a :: IsOutcome(CyriusMatches(), p, q, a) <==> IsOutcome(RustMatches, p, q, a)
  }

  lemma SamePatternsSameDecision(p: Policy, q: Request)
    requires forall x :: CanonicalPattern(x) ==> (Matches(q.command, x) <==> RustMatches(q.command, x))
    requires CanonicalPolicy(p)
    ensures SameDecision(p, q)
  {
    hide RustMatches, CanonicalPattern, IsOutcome, Matches;
    forall a ensures IsOutcome(CyriusMatches(), p, q, a) <==> IsOutcome(RustMatches, p, q, a) {
      SameOutcome(CyriusMatches(), RustMatches, p, q, a);
    }
  }

  /** WHERE THE PORT DECIDES LIKE THE ORIGINAL.  For a command with an absolute binary, both engines give
      every request for it the same outcome under every canonical policy if and only if the paths
      align. */
  lemma EnginesAgreeExactly(command: string)
    requires Absolute(Binary(command))
    ensures (forall p: Policy, q: Request :: q.command == command && CanonicalPolicy(p) ==> SameDecision(p, q))
            <==> PathsAlign(Pieces(Binary(command)))
  {
    hide RustMatches, CanonicalPattern, CanonicalPolicy, SameDecision, PathsAlign, Matches, Pieces, DenyOnly;
    AgreeExactly(command);
    if PathsAlign(Pieces(Binary(command))) {
      forall p: Policy, q: Request | q.command == command && CanonicalPolicy(p) ensures SameDecision(p, q) {
        SamePatternsSameDecision(p, q);
      }
    } else {
      var x :| CanonicalPattern(x) && !(Matches(command, x) <==> RustMatches(command, x));
      DenyOnlyDiffers(x, Request("", [], "root", command));
    }
  }

  /** A pattern that the matchers see differently makes a policy that the engines decide differently. */
  lemma DenyOnlyDiffers(x: string, q: Request)
    requires CanonicalPattern(x) && !(Matches(q.command, x) <==> RustMatches(q.command, x))
    ensures CanonicalPolicy(DenyOnly([x]))
    ensures !SameDecision(DenyOnly([x]), q)
  {
    hide RustMatches, CanonicalPattern, IsOutcome, Matches;
    DenyOnlyOutcome(CyriusMatches(), [x], q);
    DenyOnlyOutcome(RustMatches, [x], q);
    OutcomeUnique(CyriusMatches(), DenyOnly([x]), q);
    OutcomeUnique(RustMatches, DenyOnly([x]), q);
    assert Hit(CyriusMatches(), q.command, [x]) <==> Matches(q.command, [x][0]);
    assert Hit(RustMatches, q.command, [x]) <==> RustMatches(q.command, [x][0]);
  }

  /** With a doubled slash in its path, a command that the policy denies by its directory is denied by
      the original and allowed by the port. */
  lemma DoubledSlashPassesDeny(caller: string, groups: seq<string>, target: string)
    ensures var p, q := DenyOnly(["/b/*"]), Request(caller, groups, target, "/b//ls");
            && IsOutcome(RustMatches, p, q, Denied(EXPLICIT))
            && IsOutcome(CyriusMatches(), p, q, Grant(p.rules[0], p.defaults))
  {
    hide RustMatches, Matches, IsOutcome;
    var p, q := DenyOnly(["/b/*"]), Request(caller, groups, target, "/b//ls");
    DoubledSlashParts();
    DenyOnlyOutcome(CyriusMatches(), ["/b/*"], q);
    DenyOnlyOutcome(RustMatches, ["/b/*"], q);
    assert Hit(RustMatches, q.command, ["/b/*"]) by { assert RustMatches(q.command, ["/b/*"][0]); }
    assert !Hit(CyriusMatches(), q.command, ["/b/*"]);
  }

  /** Appended rules are consulted only for requests that no earlier rule decides. */
  lemma AppendStability(m: PatternRelation, p: Policy, extra: seq<Rule>, q: Request, a: Authz, b: Authz)
    requires IsOutcome(m, p, q, a) && IsOutcome(m, p.(rules := p.rules + extra), q, b)
    ensures a != Denied(NO_RULE) ==> b == a
    ensures a == Denied(NO_RULE) ==> IsOutcome(m, p.(rules := extra), q, b)
  {
    var k: nat :| FirstDecisive(m, p.rules, q, k) && a == OutcomeAt(m, p, q, k);
    var both := p.(rules := p.rules + extra);
    if k < |p.rules| {
      assert FirstDecisive(m, both.rules, q, k);
      assert IsOutcome(m, both, q, OutcomeAt(m, both, q, k));
      OutcomeUnique(m, both, q);
      assert EXPLICIT[0] != NO_RULE[0];
    } else {
      var rest := p.(rules := extra);
      var j := DecisiveExists(m, extra, q);
      assert forall i :: 0 <= i < |extra| ==> both.rules[|p.rules| + i] == extra[i];
      assert FirstDecisive(m, both.rules, q, |p.rules| + j);
      assert IsOutcome(m, both, q, OutcomeAt(m, both, q, |p.rules| + j));
      OutcomeUnique(m, both, q);
    }
  }

  /** A rule that passes a request over can be deleted without changing its outcome. */
  lemma PassedRuleIsDead(m: PatternRelation, p: Policy, j: nat, q: Request, a: Authz)
    requires j < |p.rules| && VerdictOf(m, p.rules[j], q).Passes?
    ensures IsOutcome(m, p, q, a) <==> IsOutcome(m, p.(rules := p.rules[..j] + p.rules[j + 1..]), q, a)
  {
    var cut := p.(rules := p.rules[..j] + p.rules[j + 1..]);
    var k := DecisiveExists(m, p.rules, q);
    assert k != j;
    var k' := if k < j then k else k - 1;
    assert forall i :: 0 <= i < |cut.rules| ==> cut.rules[i] == p.rules[if i < j then i else i + 1];
    assert FirstDecisive(m, cut.rules, q, k');
    assert OutcomeAt(m, cut, q, k') == OutcomeAt(m, p, q, k);
    assert IsOutcome(m, p, q, OutcomeAt(m, p, q, k));
    assert IsOutcome(m, cut, q, OutcomeAt(m, cut, q, k'));
    OutcomeUnique(m, p, q);
    OutcomeUnique(m, cut, q);
  }

  /** A rule that names neither a user nor a group can be deleted: it decides nothing. */
  lemma NamelessRuleIsDead(m: PatternRelation, p: Policy, j: nat, q: Request, a: Authz)
    requires j < |p.rules| && p.rules[j].user.None? && p.rules[j].group.None?
    ensures IsOutcome(m, p, q, a) <==> IsOutcome(m, p.(rules := p.rules[..j] + p.rules[j + 1..]), q, a)
  {
    PassedRuleIsDead(m, p, j, q, a);
  }

  /** So can, for a request as one target, a rule for another target. */
  lemma OtherTargetRuleIsDead(m: PatternRelation, p: Policy, j: nat, q: Request, a: Authz)
    requires j < |p.rules| && p.rules[j].runAs != "*" && p.rules[j].runAs != q.target
    ensures IsOutcome(m, p, q, a) <==> IsOutcome(m, p.(rules := p.rules[..j] + p.rules[j + 1..]), q, a)
  {
    PassedRuleIsDead(m, p, j, q, a);
  }

  /** And a rule for other users and groups. */
  lemma OtherCallerRuleIsDead(m: PatternRelation, p: Policy, j: nat, q: Request, a: Authz)
    requires j < |p.rules|
    requires p.rules[j].user.Some? ==> p.rules[j].user.value != "*" && p.rules[j].user.value != q.caller
    requires p.rules[j].group.Some? ==> p.rules[j].group.value !in q.groups
    ensures IsOutcome(m, p, q, a) <==> IsOutcome(m, p.(rules := p.rules[..j] + p.rules[j + 1..]), q, a)
  {
    PassedRuleIsDead(m, p, j, q, a);
  }

  // ---- Outcomes, on the fields of the rules ----------------------------------------------

  /** The rule is for this caller, by name or by group, and for this target. */
  ghost predicate Concerns(r: Rule, q: Request) {
    && (|| (r.user.Some? && (r.user.value == "*" || r.user.value == q.caller))
        || (r.group.Some? && r.group.value in q.groups))
    && (r.runAs == "*" || r.runAs == q.target)
  }

  ghost predicate Lists(m: PatternRelation, patterns: seq<string>, command: string) {
    exists x :: x in patterns && m(command, x)
  }

  /** The rule concerns the request and has the command on a list, or no list of commands at all. */
  ghost predicate Speaks(m: PatternRelation, r: Rule, q: Request) {
    && Concerns(r, q)
    && (Lists(m, r.denyCommands, q.command) || r.commands == [] || Lists(m, r.commands, q.command))
  }

  /** The rule at `k` is the first that speaks. */
  ghost predicate FirstToSpeak(m: PatternRelation, p: Policy, q: Request, k: nat) {
    k < |p.rules| && Speaks(m, p.rules[k], q) && forall i :: 0 <= i < k ==> !Speaks(m, p.rules[i], q)
  }

  /** The settings of a grant by rule `r` under defaults `d`. */
  ghost predicate Settings(a: Authz, r: Rule, d: Defaults) {
    && a.Allowed?
    && (a.requireAuth <==> r.requireAuth && d.requireAuth)
    && a.capabilities == r.capabilities && a.selinux == r.selinuxContext && a.apparmor == r.apparmorProfile
    && (r.logSession == None ==> a.logSession == d.logSession)
    && (r.logSession.Some? ==> a.logSession == r.logSession.value)
    && (r.logInput == None ==> a.logInput == d.logInput)
    && (r.logInput.Some? ==> a.logInput == r.logInput.value)
  }

  lemma HitIsLists(m: PatternRelation, command: string, patterns: seq<string>)
    ensures Hit(m, command, patterns) <==> Lists(m, patterns, command)
  {
    if x :| x in patterns && m(command, x) {
      var i :| 0 <= i < |patterns| && patterns[i] == x;
      assert m(command, patterns[i]);
    }
  }

  lemma SpeaksIsDecides(m: PatternRelation, r: Rule, q: Request)
    ensures Speaks(m, r, q) <==> !VerdictOf(m, r, q).Passes?
    ensures Speaks(m, r, q) ==> (VerdictOf(m, r, q).Denies? <==> Lists(m, r.denyCommands, q.command))
  {
    HitIsLists(m, q.command, r.denyCommands);
    HitIsLists(m, q.command, r.commands);
  }

  /** THE FIRST RULE THAT SPEAKS DECIDES.  A request is allowed exactly by the first rule that concerns its
      caller and target and lists its command, or lists no commands, when that rule does not also deny
      the command, and with that rule's settings; it is denied explicitly exactly when that rule denies
      it; and it is denied for want of a rule exactly when no rule speaks. */
  lemma OutcomeByFields(m: PatternRelation, p: Policy, q: Request, a: Authz)
    ensures IsOutcome(m, p, q, a) && a.Allowed? <==>
              exists k: nat :: FirstToSpeak(m, p, q, k) && !Lists(m, p.rules[k].denyCommands, q.command)
                               && Settings(a, p.rules[k], p.defaults)
    ensures IsOutcome(m, p, q, Denied("command explicitly denied by rule")) <==>
              exists k: nat :: FirstToSpeak(m, p, q, k) && Lists(m, p.rules[k].denyCommands, q.command)
    ensures IsOutcome(m, p, q, Denied("no matching rule")) <==>
              forall i :: 0 <= i < |p.rules| ==> !Speaks(m, p.rules[i], q)
  {
    hide VerdictOf, Speaks, Lists;
    forall i | 0 <= i < |p.rules|
      ensures Speaks(m, p.rules[i], q) <==> !VerdictOf(m, p.rules[i], q).Passes?
      ensures Speaks(m, p.rules[i], q) ==>
                (VerdictOf(m, p.rules[i], q).Denies? <==> Lists(m, p.rules[i].denyCommands, q.command))
    {
      SpeaksIsDecides(m, p.rules[i], q);
    }
    assert EXPLICIT[0] != NO_RULE[0];
    var k := DecisiveExists(m, p.rules, q);
    var o := OutcomeAt(m, p, q, k);
    assert IsOutcome(m, p, q, o);
    OutcomeUnique(m, p, q);
    if k < |p.rules| {
      assert FirstToSpeak(m, p, q, k);
      assert o.Allowed? ==> Settings(o, p.rules[k], p.defaults);
    }
  }

  /** Whoever gets an answer from a rule is named by it. */
  lemma DecidedByAConcernedRule(m: PatternRelation, p: Policy, q: Request, a: Authz)
    requires IsOutcome(m, p, q, a) && a != Denied("no matching rule")
    ensures exists r :: r in p.rules && Concerns(r, q)
  {
    OutcomeByFields(m, p, q, a);
    assert EXPLICIT[0] != NO_RULE[0];
    var k: nat :| FirstToSpeak(m, p, q, k);
    assert p.rules[k] in p.rules;
  }

  // ---- Malformed command lists -----------------------------------------------------------

  /** The rule allows every request that it applies to and does not deny, under any matcher. */
  ghost predicate AllowsAll(r: Rule) {
    forall m: PatternRelation, q: Request ::
      Applies(r, q) && !Hit(m, q.command, r.denyCommands) ==> VerdictOf(m, r, q).Allows?
  }

  lemma AllowsAllExactly(r: Rule)
    requires r.user.Some? || r.group.Some?
    ensures AllowsAll(r) <==> r.commands == []
  {
    var never: PatternRelation := (c, p) => false;
    var caller := if r.user.Some? then r.user.value else "";
    var groups := if r.group.Some? then [r.group.value] else [];
    var q := Request(caller, groups, if r.runAs == "*" then "root" else r.runAs, "");
    assert Applies(r, q) && !Hit(never, q.command, r.denyCommands) && !Hit(never, q.command, r.commands);
  }

  /** A malformed command list does not fail closed: an entry leaves its rule allowing everything if and
      only if its value is not a list with an item in it. */
  lemma MalformedListAllowsAll(r: Rule, raw: string)
    requires r.user.Some? || r.group.Some?
    ensures AllowsAll(RuleSet(r, "commands", raw)) <==> !HoldsItem(raw)
  {
    hide AllowsAll, HoldsItem, StrArray;
    AllowsAllExactly(RuleSet(r, "commands", raw));
    EmptyListExactly(raw);
  }

  /** The closing bracket left out. */
  lemma UnclosedListAllowsAll(r: Rule, raw: string)
    requires (r.user.Some? || r.group.Some?) && ']' !in raw
    ensures AllowsAll(RuleSet(r, "commands", raw))
  {
    MalformedListAllowsAll(r, raw);
  }

  // ---- Larger group lists ----------------------------------------------------------------

  ghost predicate IsAllowed(m: PatternRelation, rules: seq<Rule>, q: Request) {
    exists k: nat :: FirstDecisive(m, rules, q, k) && k < |rules| && VerdictOf(m, rules[k], q).Allows?
  }

  /** The same as an allowed outcome, whatever the defaults. */
  lemma AllowedIsOutcome(m: PatternRelation, p: Policy, q: Request)
    ensures IsAllowed(m, p.rules, q) <==> exists a :: IsOutcome(m, p, q, a) && a.Allowed?
  {
    var k := DecisiveExists(m, p.rules, q);
    assert IsOutcome(m, p, q, OutcomeAt(m, p, q, k));
    OutcomeUnique(m, p, q);
  }

  /** More groups never turn an allowed request into a denied one. */
  ghost predicate GroupMonotone(m: PatternRelation, rules: seq<Rule>) {
    forall q: Request, more: seq<string> ::
      (forall g :: g in q.groups ==> g in more) && IsAllowed(m, rules, q) ==>
        IsAllowed(m, rules, q.(groups := more))
  }

  /** A rule whose deny patterns some callers reach only through its group. */
  predicate DeniesByGroup(r: Rule) {
    r.group.Some? && r.user != Some("*") && r.denyCommands != []
  }

  lemma MoreGroupsKeepAllowed(m: PatternRelation, rules: seq<Rule>, q: Request, more: seq<string>)
    requires forall r :: r in rules ==> !DeniesByGroup(r)
    requires (forall g :: g in q.groups ==> g in more) && IsAllowed(m, rules, q)
    ensures IsAllowed(m, rules, q.(groups := more))
  {
    var q' := q.(groups := more);
    var k: nat :| FirstDecisive(m, rules, q, k) && k < |rules| && VerdictOf(m, rules[k], q).Allows?;
    forall i | 0 <= i <= k ensures !VerdictOf(m, rules[i], q').Denies? {
      assert rules[i] in rules && !DeniesByGroup(rules[i]);
      if VerdictOf(m, rules[i], q').Denies? { assert UserMatches(rules[i], q); }
    }
    assert VerdictOf(m, rules[k], q').Allows?;
    var k' := DecisiveExists(m, rules, q');
    assert k' <= k;
  }

  const ALLOW_ALL := NEW_RULE.(user := Some("*"), runAs := "*")

  /** Whoever is not the named user of such a rule, is allowed by a later rule and then joins the
      group, is denied its first denied command. */
  lemma DeniesByGroupBreaks(m: PatternRelation, r: Rule)
    requires DeniesByGroup(r) && forall x :: m(x, x)
    ensures !GroupMonotone(m, [r, ALLOW_ALL])
  {
    var rules := [r, ALLOW_ALL];
    var caller := if r.user.Some? then r.user.value + "x" else "x";
    var target := if r.runAs == "*" then "root" else r.runAs;
    var d := r.denyCommands[0];
    var q := Request(caller, [], target, d);
    var q' := q.(groups := [r.group.value]);
    assert r.user != Some(caller) by { if r.user.Some? { assert |caller| == |r.user.value| + 1; } }
    assert VerdictOf(m, rules[0], q).Passes?;
    assert VerdictOf(m, rules[1], q).Allows?;
    assert FirstDecisive(m, rules, q, 1);
    assert IsAllowed(m, rules, q);
    assert m(d, r.denyCommands[0]);
    assert Hit(m, d, r.denyCommands);
    assert VerdictOf(m, rules[0], q').Denies?;
    assert forall k: nat :: FirstDecisive(m, rules, q', k) ==> k == 0;
  }

  /** Exactly the rules that deny by group break monotonicity: a rule can be put in front of every
      policy without such rules if and only if it is not one itself. */
  lemma GroupMonotoneExactly(m: PatternRelation, r: Rule)
    requires forall x :: m(x, x)
    ensures (forall rest: seq<Rule> :: (forall s :: s in rest ==> !DeniesByGroup(s)) ==>
               GroupMonotone(m, [r] + rest))
            <==> !DeniesByGroup(r)
  {
    if !DeniesByGroup(r) {
      forall rest: seq<Rule> | forall s :: s in rest ==> !DeniesByGroup(s)
        ensures GroupMonotone(m, [r] + rest)
      {
        var rules := [r] + rest;
        forall q: Request, more: seq<string> |
          (forall g :: g in q.groups ==> g in more) && IsAllowed(m, rules, q)
          ensures IsAllowed(m, rules, q.(groups := more))
        {
          MoreGroupsKeepAllowed(m, rules, q, more);
        }
      }
    } else {
      DeniesByGroupBreaks(m, r);
      assert [r] + [ALLOW_ALL] == [r, ALLOW_ALL];
      assert forall s :: s in [ALLOW_ALL] ==> !DeniesByGroup(s);
    }
  }
}
