/** Staging the security context for the next execve: fail closed unless a requested context could
    be staged with a security module that is active. */
module Lsm {

  datatype Attr = SelinuxExec | ApparmorExec

  datatype LsmEvent =
    | Probed(name: string, active: bool)
    | OpenFailed(attr: Attr)
    | Staged(attr: Attr, text: string)
    | Failed(name: string)

  /** How one requested context fared. */
  datatype Fate = NotRequested | Inactive | Applied | Broken

  /** Where a text ends up: the SELinux attribute for SELinux; for AppArmor its own attribute, or the
      older shared one when its own could not be opened. */
  predicate Placed(es: seq<LsmEvent>, name: string, text: string) {
    || (name == "selinux" && es == [Staged(SelinuxExec, text)])
    || (name == "apparmor" && es == [Staged(ApparmorExec, text)])
    || (name == "apparmor" && es == [OpenFailed(ApparmorExec), Staged(SelinuxExec, text)])
  }

  /** The events of one attempt to set a context: probed again, then placed. */
  predicate SetFor(es: seq<LsmEvent>, name: string, text: string) {
    es != [] && es[0] == Probed(name, true) && Placed(es[1..], name, text)
  }

  /** An attempt that failed, with nothing staged. */
  predicate NotSet(es: seq<LsmEvent>, name: string) {
    es != [] && es[|es| - 1] == Failed(name) && forall e :: e in es ==> !e.Staged?
  }

  /** The events that go with a fate, for module `name` and the text to be written. */
  predicate Traces(es: seq<LsmEvent>, f: Fate, name: string, text: string) {
    match f
    case NotRequested => es == []
    case Inactive => es == [Probed(name, false)]
    case Applied => es != [] && es[0] == Probed(name, true) && SetFor(es[1..], name, text)
    case Broken => es != [] && es[0] == Probed(name, true) && NotSet(es[1..], name)
  }

  /** The next `n` answers are all yes. */
  predicate Willing(answers: seq<bool>, n: nat) {
    n <= |answers| && forall i :: 0 <= i < n ==> answers[i]
  }

  /** The questions that a run asks when every answer is yes. */
  const ALL_QUESTIONS := 8

  /** The kernel side: every look at the list of active modules and every open or write may turn out
      either way, the same question asked twice included. */
  class LsmNodes {
    var answers: seq<bool>
    var events: seq<LsmEvent>

    constructor (answers: seq<bool>)
      ensures this.answers == answers && events == []
    {
      this.answers, events := answers, [];
    }

    method Ask() returns (yes: bool)
      modifies `answers
      ensures yes == (old(answers) != [] && old(answers)[0])
      ensures answers == if old(answers) == [] then [] else old(answers)[1..]
    {
      yes := false;
      if answers != [] { yes, answers := answers[0], answers[1..]; }
    }

    method ActiveHas(name: string) returns (active: bool)
      modifies this
      ensures events == old(events) + [Probed(name, active)]
      ensures active == (old(answers) != [] && old(answers)[0])
      ensures answers == if old(answers) == [] then [] else old(answers)[1..]
    {
      active := Ask();
      events := events + [Probed(name, active)];
    }

    method Open(attr: Attr) returns (isOpen: bool)
      modifies this
      ensures events == old(events) + if isOpen then [] else [OpenFailed(attr)]
      ensures isOpen == (old(answers) != [] && old(answers)[0])
      ensures answers == if old(answers) == [] then [] else old(answers)[1..]
    {
      isOpen := Ask();
      if !isOpen { events := events + [OpenFailed(attr)]; }
    }

    /** Write a context; the result is 0 only when all of it was written. */
    method SetSelinuxExec(ctx: string) returns (r: int)
      modifies this
      ensures r == 0 || r == -1
      ensures old(events) <= events
      ensures r == 0 ==> SetFor(events[|old(events)|..], "selinux", ctx)
      ensures r == -1 ==> NotSet(events[|old(events)|..], "selinux")
      ensures Willing(old(answers), 3) ==> r == 0 && answers == old(answers)[3..]
    {
      r := -1;
      var active := ActiveHas("selinux");
      if active {
        var isOpen := Open(SelinuxExec);
        if isOpen {
          var wrote := Ask();
          if wrote { r := 0; }
        }
      }
      events := events + [if r == 0 then Staged(SelinuxExec, ctx) else Failed("selinux")];
    }

    method SetApparmorExec(profile: string) returns (r: int)
      modifies this
      ensures r == 0 || r == -1
      ensures old(events) <= events
      ensures r == 0 ==> SetFor(events[|old(events)|..], "apparmor", "exec " + profile)
      ensures r == -1 ==> NotSet(events[|old(events)|..], "apparmor")
      ensures Willing(old(answers), 3) ==> r == 0 && answers == old(answers)[3..]
    {
      r := -1;
      var attr := ApparmorExec;
      var active := ActiveHas("apparmor");
      if active {
        var isOpen := Open(attr);
        if !isOpen {
          attr := SelinuxExec;
          isOpen := Open(attr);
        }
        if isOpen {
          var wrote := Ask();
          if wrote { r := 0; }
        }
      }
      events := events + [if r == 0 then Staged(attr, "exec " + profile) else Failed("apparmor")];
    }

    /** One branch of `lsm_apply_exec`: skip an inactive module, stage with an active one. */
    method TrySelinux(ctx: string) returns (f: Fate)
      modifies this
      ensures old(events) <= events && Traces(events[|old(events)|..], f, "selinux", ctx)
      ensures f.NotRequested? <==> ctx == ""
      ensures ctx == "" ==> answers == old(answers)
      ensures ctx != "" && Willing(old(answers), 4) ==> f.Applied? && answers == old(answers)[4..]
    {
      hide SetFor, NotSet;
      if ctx == "" { return NotRequested; }
      var active := ActiveHas("selinux");
      if !active { return Inactive; }
      ghost var k := |events|;
      var r := SetSelinuxExec(ctx);
      f := if r < 0 then Broken else Applied;
      assert events[|old(events)|..][1..] == events[k..];
    }

    method TryApparmor(profile: string) returns (f: Fate)
      modifies this
      ensures old(events) <= events && Traces(events[|old(events)|..], f, "apparmor", "exec " + profile)
      ensures f.NotRequested? <==> profile == ""
      ensures profile != "" && Willing(old(answers), 4) ==> f.Applied?
    {
      hide SetFor, NotSet;
      if profile == "" { return NotRequested; }
      var active := ActiveHas("apparmor");
      if !active { return Inactive; }
      ghost var k := |events|;
      var r := SetApparmorExec(profile);
      f := if r < 0 then Broken else Applied;
      assert events[|old(events)|..][1..] == events[k..];
    }
  }

  /** A record of staging that went well: whatever was requested is staged or belongs to a module that
      is not active, something was staged if anything was requested, and nothing else was written. */
  ghost predicate StagedFor(es: seq<LsmEvent>, ctx: string, profile: string) {
    exists k: nat, se: Fate, aa: Fate ::
      && k <= |es|
      && Traces(es[..k], se, "selinux", ctx) && Traces(es[k..], aa, "apparmor", "exec " + profile)
      && (se.NotRequested? <==> ctx == "") && (aa.NotRequested? <==> profile == "")
      && !se.Broken? && !aa.Broken?
      && (ctx != "" || profile != "" ==> se.Applied? || aa.Applied?)
  }

  /** Fail closed: success means that nothing was requested, or that something requested was staged
      and nothing requested broke.  A requested context is staged whenever its module answered that
      it is active, and no text is ever written that was not requested.  A willing kernel is enough for
      success. */
  method ApplyExec(n: LsmNodes, ctx: string, profile: string) returns (r: int, ghost se: Fate, ghost aa: Fate)
    modifies n
    ensures se.NotRequested? <==> ctx == ""
    ensures !se.Broken? ==> (aa.NotRequested? <==> profile == "")
    ensures r == 0 <==> (ctx == "" && profile == "")
                        || ((se.Applied? || aa.Applied?) && !se.Broken? && !aa.Broken?)
    ensures exists k :: |old(n.events)| <= k <= |n.events| && old(n.events) <= n.events
              && Traces(n.events[|old(n.events)|..k], se, "selinux", ctx)
              && Traces(n.events[k..], aa, "apparmor", "exec " + profile)
    ensures r == 0 || r == -1
    ensures r == 0 ==> StagedFor(n.events[|old(n.events)|..], ctx, profile)
    ensures Willing(old(n.answers), ALL_QUESTIONS) ==> r == 0
  {
    hide Traces, StagedFor, Willing;
    r, se, aa := -1, NotRequested, NotRequested;
    ghost var e0 := n.events;
    NothingTraced("selinux", ctx);
    NothingTraced("apparmor", "exec " + profile);
    if ctx == "" && profile == "" {
      r := 0;
      TwoParts(e0, e0, e0);
      StagedByParts(e0[|e0|..], 0, se, aa, ctx, profile);
      return;
    }
    WillingParts(n.answers);
    var applied := false;
    var f := n.TrySelinux(ctx);
    se := f;
    ghost var e1 := n.events;
    TwoParts(e0, e1, e1);
    if f.Broken? { return; }
    if f.Applied? { applied := true; }
    f := n.TryApparmor(profile);
    aa := f;
    ghost var e2 := n.events;
    TwoParts(e0, e1, e2);
    if f.Broken? { return; }
    if f.Applied? { applied := true; }
    if !applied { return; }
    StagedByParts(e2[|e0|..], |e1| - |e0|, se, aa, ctx, profile);
    r := 0;
  }

  lemma NothingTraced(name: string, text: string)
    ensures Traces([], NotRequested, name, text)
  {
  }

  lemma TwoParts(e0: seq<LsmEvent>, e1: seq<LsmEvent>, e2: seq<LsmEvent>)
    requires e0 <= e1 <= e2
    ensures e2[|e0|..|e1|] == e1[|e0|..] && e2[|e2|..] == []
    ensures e2[|e0|..][..|e1| - |e0|] == e1[|e0|..] && e2[|e0|..][|e1| - |e0|..] == e2[|e1|..]
  {
  }

  lemma StagedByParts(es: seq<LsmEvent>, k: nat, se: Fate, aa: Fate, ctx: string, profile: string)
    requires k <= |es|
    requires Traces(es[..k], se, "selinux", ctx) && Traces(es[k..], aa, "apparmor", "exec " + profile)
    requires (se.NotRequested? <==> ctx == "") && (aa.NotRequested? <==> profile == "")
    requires !se.Broken? && !aa.Broken? && (ctx != "" || profile != "" ==> se.Applied? || aa.Applied?)
    ensures StagedFor(es, ctx, profile)
  {
    hide Traces;
  }

  /** A kernel that is willing throughout is willing for each half. */
  lemma WillingParts(answers: seq<bool>)
    ensures Willing(answers, ALL_QUESTIONS) ==>
              Willing(answers, 4) && Willing(answers[4..], 4)
  {
  }
}
