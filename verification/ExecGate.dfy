/** One run of shakti from the parsed command line to execve, with every call it depends on free to
    fail: whatever happens, execve is reached only through every gate. */
module ExecGate {
  import opened Text
  import opened PolicySpec
  import Authorization
  import Matcher
  import Fragments
  import Caps
  import Credentials
  import PrivilegeDrop
  import Lsm
  import Relay
  import Password
  import Timestamp
  import Passwd
  import Environment

  // ---- Evaluation ------------------------------------------------------------------------

  datatype AuthMode = Interactive | TimestampOnly | Skip

  datatype Evaluation = Evaluation(
    authorized: bool, requireAuth: bool, timestampValid: bool, failed: bool, resolved: string,
    capabilities: seq<string>, logSession: bool, selinux: string, apparmor: string, logInput: bool,
    env: seq<string>)

  const NO_EVALUATION := Evaluation(false, false, false, true, "", [], false, "", "", false, [])

  function JoinSpace(argv: seq<string>): string { JoinBy(argv, ' ') }

  /** The policy sees the words: without spaces in them they can be read off the command again. */
  lemma WordsReadBack(argv: seq<string>)
    requires argv != [] && forall w :: w in argv ==> ' ' !in w
    ensures SplitBy(JoinSpace(argv), ' ') == argv
  {
    SplitJoin(argv, ' ');
  }

  /** And the matcher's binary is the first word. */
  lemma FirstWordIsBinary(argv: seq<string>)
    requires argv != [] && ' ' !in argv[0]
    ensures Matcher.Binary(JoinSpace(argv)) == argv[0]
  {
    JoinStarts(argv, ' ');
    FindFirst(JoinSpace(argv), ' ', |argv[0]|);
  }

  method JoinCommand(argv: array<string>) returns (s: string)
    ensures s == JoinSpace(argv[..])
  {
    s := "";
    var i := 0;
    while i < argv.Length
      invariant 0 <= i <= argv.Length && s == JoinSpace(argv[..i])
    {
      assert argv[..i + 1] == argv[..i] + [argv[i]];
      JoinSnoc(argv[..i], ' ', argv[i]);
      if i > 0 { s := s + " "; }
      s := s + argv[i];
      i := i + 1;
    }
    assert argv[..i] == argv[..];
  }

  /** What the run is asked to do. */
  datatype Mode = Help | Version | Invalidate | Check | List | Command

  datatype Cli = Cli(mode: Mode, target: string, argv: seq<string>)

  /** What the run finds out about the host: any of it may be missing or refused.  `passwd` is what
      reading the password file returned, `link` what stdin links to, `file` the policy file with its
      include directories and fragments at `dirAt` and `fileAt`, and `environ` the caller's environment
      block, which reads deliver in pieces of these sizes. */
  datatype Host = Host(
    passwd: string, callerUid: nat, callerGid: nat, link: string, environ: string, environSizes: seq<int>,
    groups: seq<string>, file: Fragments.FileView, dirAt: string -> Fragments.DirView,
    fileAt: (string, string) -> Fragments.FileView,
    commandValid: bool, resolved: Option<string>, targetGroups: seq<nat>,
    clockOk: bool, mkdirOk: bool, openOk: bool, unlinkOk: bool,
    logOpens: bool, inputLogOpens: bool, ptyReady: bool, childReady: bool)

  /** There is a policy file to go by: root's, not world-writable, and not empty. */
  predicate HasPolicy(h: Host) { h.file.trusted && h.file.content != "" }

  /** The policy that the file and its fragments define. */
  ghost predicate PolicyIs(h: Host, p: Policy) {
    HasPolicy(h) && Fragments.Defines(p, h.file.content, h.dirAt, h.fileAt)
  }

  lemma OnePolicy(h: Host, p: Policy, p': Policy)
    requires PolicyIs(h, p) && PolicyIs(h, p')
    ensures p == p'
  {
    hide Fragments.Defines;
    Fragments.LoadedPolicyUnique(p, p', h.file.content, h.dirAt, h.dirAt, h.fileAt);
  }

  /** The policy allows `command` as `target`, and this is the grant. */
  ghost predicate Grants(h: Host, p: Policy, caller: string, target: string, command: string,
                         a: Authorization.Authz)
  {
    var q := Authorization.Request(caller, h.groups, target, command);
    a.Allowed? && Authorization.IsOutcome(Authorization.CyriusMatches(), p, q, a)
  }

  /** The grant that an evaluation carries. */
  function GrantOf(e: Evaluation): Authorization.Authz {
    Authorization.Allowed(e.requireAuth, e.capabilities, e.logSession, e.selinux, e.apparmor, e.logInput)
  }

  /** The caller passed the prompt on this session less than the policy's ttl ago, with no later
      invalidation. */
  ghost predicate CachedAt(history: seq<Timestamp.Op>, now: nat, h: Host, p: Policy, caller: string) {
    h.clockOk && now != 0 &&
    Timestamp.Fresh(history, (caller, Timestamp.SessionId(h.link)), p.defaults.ttl, now)
  }

  /** The command is well formed and found; then its resolved path stands in for its first word. */
  predicate Runnable(h: Host, caller: string) {
    Timestamp.UserOk(caller) && h.commandValid && h.resolved.Some?
  }

  /** The fixed entries for this caller and target, then what the filter keeps of the caller's
      environment: of all of it when no read fails, else of the part read before. */
  ghost predicate EnvFor(env: seq<string>, h: Host, p: Policy, caller: string, target: string) {
    exists n :: 0 <= n <= |h.environ| && (Environment.NoReadError(h.environSizes) ==> n == |h.environ|) &&
      env == Environment.Fixed(CallerOf(h, caller), TargetOf(h, target))
             + Environment.Kept(Environment.Entries(h.environ[..n]), p.defaults.envKeep)
  }

  function CallerOf(h: Host, caller: string): Environment.Caller {
    Environment.Caller(caller, h.callerUid, h.callerGid)
  }

  function TargetOf(h: Host, target: string): Environment.Target {
    Environment.Target(target, Passwd.HomeOf(h.passwd, target), Passwd.ShellOf(h.passwd, target))
  }

  method BuildEnvironment(h: Host, p: Policy, caller: string, target: string, environ: Environment.Stream)
    returns (env: seq<string>)
    requires environ.rest == h.environ && environ.sizes == h.environSizes
    modifies environ
    ensures EnvFor(env, h, p, caller, target)
  {
    hide Environment.Kept, Environment.Entries, Environment.Fixed, Passwd.HomeOf, Passwd.ShellOf;
    var home := Passwd.TargetHome(h.passwd, target);
    var shell := Passwd.TargetShell(h.passwd, target);
    env := Environment.SanitizeEnvironment(environ, p.defaults.envKeep, CallerOf(h, caller),
                                           Environment.Target(target, home, shell));
    ghost var n := |h.environ| - |environ.rest|;
    assert env == Environment.Fixed(CallerOf(h, caller), TargetOf(h, target))
                  + Environment.Kept(Environment.Entries(h.environ[..n]), p.defaults.envKeep);
  }

  /** The authorization half: it replaces the first word in place and asks the policy about exactly
      the words that are then left in `argv`. */
  method AuthorizeCommand(p: Policy, caller: string, h: Host, target: string, argv: array<string>)
    returns (e: Evaluation)
    requires argv.Length > 0
    modifies argv
    ensures argv[..] == if Runnable(h, caller) then old(argv[..])[0 := h.resolved.value] else old(argv[..])
    ensures e.authorized ==> Runnable(h, caller) && e.resolved == h.resolved.value
    ensures e.authorized ==> Grants(h, p, caller, target, JoinSpace(argv[..]), GrantOf(e))
    ensures Runnable(h, caller) ==>
              forall a :: Grants(h, p, caller, target, JoinSpace(argv[..]), a) ==> e.authorized && GrantOf(e) == a
    ensures !e.timestampValid && e.failed == !e.authorized
  {
    e := NO_EVALUATION;
    var vu := Timestamp.ValidateUsername(caller);
    if vu != Timestamp.OK { return; }
    if !h.commandValid { return; }
    if h.resolved.None? { return; }
    argv[0] := h.resolved.value;
    assert argv[..] == old(argv[..])[0 := h.resolved.value];
    hide Authorization.IsOutcome, Timestamp.UserOk, JoinSpace;
    var fullCmd := JoinCommand(argv);
    var q := Authorization.Request(caller, h.groups, target, fullCmd);
    var authz := Authorization.CheckAuthorization(p, q);
    Authorization.OutcomeUnique(Authorization.CyriusMatches(), p, q);
    if !authz.Allowed? { return; }
    e := Evaluation(true, authz.requireAuth, false, false, h.resolved.value, authz.capabilities,
                    authz.logSession, authz.selinux, authz.apparmor, authz.logInput, []);
    assert GrantOf(e) == authz;
  }

  method EvaluateWithPolicy(mode: AuthMode, p: Policy, caller: string, h: Host, target: string, argv: array<string>,
                            cache: Timestamp.CredentialCache, environ: Environment.Stream)
    returns (e: Evaluation)
    requires argv.Length > 0 && environ.rest == h.environ && environ.sizes == h.environSizes
    requires cache.Valid() && ':' !in caller && NUL !in h.link
    modifies argv, environ
    ensures argv[..] == if Runnable(h, caller) then old(argv[..])[0 := h.resolved.value] else old(argv[..])
    ensures e.authorized ==> Runnable(h, caller) && e.resolved == h.resolved.value
    ensures e.authorized ==> Grants(h, p, caller, target, JoinSpace(argv[..]), GrantOf(e))
    ensures Runnable(h, caller) ==>
              forall a :: Grants(h, p, caller, target, JoinSpace(argv[..]), a) ==> e.authorized && GrantOf(e) == a
    ensures e.timestampValid <==>
              e.authorized && e.requireAuth && mode != Skip && CachedAt(cache.history, cache.now, h, p, caller)
    ensures e.failed <==>
              || !e.authorized
              || (mode == TimestampOnly && e.requireAuth && !CachedAt(cache.history, cache.now, h, p, caller))
    ensures !e.failed ==> EnvFor(e.env, h, p, caller, target)
  {
    hide Grants, JoinSpace, Runnable, EnvFor, Timestamp.Fresh;
    e := AuthorizeCommand(p, caller, h, target, argv);
    if !e.authorized { return; }
    ghost var a := GrantOf(e);
    var effectiveAuth := if mode == Skip then false else e.requireAuth;
    var tsValid := false;
    if effectiveAuth { tsValid := cache.Check(caller, h.link, p.defaults.ttl, h.clockOk); }
    e := e.(timestampValid := tsValid);
    if mode == TimestampOnly && effectiveAuth && !tsValid {
      e := e.(failed := true);
      assert GrantOf(e) == a;
      return;
    }
    var env := BuildEnvironment(h, p, caller, target, environ);
    e := e.(env := env);
    assert GrantOf(e) == a;
  }

  // ---- The run ---------------------------------------------------------------------------

  /** What execve is given. */
  datatype Image = Image(path: string, argv: seq<string>, env: seq<string>)

  datatype Event =
    | Audited(allowed: bool)
    | AuthPassed
    | AuthFailed
    | LogOpened(input: bool)
    | LsmStaged
    | Exec(pty: bool, image: Image, creds: Credentials.Creds)

  class Session {
    const process: Credentials.Process
    const nodes: Lsm.LsmNodes
    const console: Password.Console
    const cache: Timestamp.CredentialCache
    const environ: Environment.Stream
    const pbuf: array<char>
    const argv: array<string>
    var events: seq<Event>

    constructor (process: Credentials.Process, nodes: Lsm.LsmNodes, console: Password.Console,
                 cache: Timestamp.CredentialCache, environ: Environment.Stream, pbuf: array<char>,
                 argv: array<string>)
      ensures this.process == process && this.nodes == nodes && this.console == console
      ensures this.cache == cache && this.environ == environ && this.pbuf == pbuf && this.argv == argv
      ensures events == []
    {
      this.process, this.nodes, this.console, this.cache := process, nodes, console, cache;
      this.environ, this.pbuf, this.argv, events := environ, pbuf, argv, [];
    }

    method Log(e: Event)
      modifies `events
      ensures events == old(events) + [e]
    {
      events := events + [e];
    }
  }

  predicate NoExec(events: seq<Event>) { forall e :: e in events ==> !e.Exec? }

  /** The credentials that may reach execve: the target's ids and, with a capability list, exactly
      its effective set. */
  predicate CredsOk(c: Credentials.Creds, uid: nat, gid: nat, mask: nat) {
    c.ruid == uid && c.rgid == gid && (mask != 0 ==> c.effective == Credentials.CapsOf(mask))
  }

  /** When no call lies, and the run starts as root with full sets, they are those of an undisturbed drop
      in every field. */
  predicate ExactCreds(c: Credentials.Creds, o: Origin, gids: seq<nat>, uid: nat, gid: nat, mask: nat) {
    Credentials.Truthful(o.script) && PrivilegeDrop.RootWithFullSets(o.creds, o.lastCap) ==>
      c == PrivilegeDrop.Dropped(o.creds, gids, uid, gid, mask)
  }

  /** Where the run stands when its last stretch begins: who to become, with what, on which kernel. */
  datatype Aim = Aim(pty: bool, image: Image, gids: seq<nat>, uid: nat, gid: nat, mask: nat)

  /** Every system call behaves, the process starts as root with full sets on a kernel that can do the
      drop, and the security modules are willing or not needed: nothing is left that could stop the
      last stretch. */
  predicate Clear(o: Origin, mask: nat, se: string, aa: string) {
    && Credentials.AllHonest(o.script) && PrivilegeDrop.RootWithFullSets(o.creds, o.lastCap)
    && PrivilegeDrop.CanDrop(o.lastCap, mask)
    && ((se == "" && aa == "") || Lsm.Willing(o.answers, Lsm.ALL_QUESTIONS))
  }

  /** What the last stretch starts from. */
  datatype Origin = Origin(creds: Credentials.Creds, lastCap: Credentials.Cap, script: seq<Credentials.Fault>,
                           answers: seq<bool>)

  function OriginOf(s: Session): Origin
    reads s.process, s.nodes
  {
    Origin(s.process.creds, s.process.lastCap, s.process.script, s.nodes.answers)
  }

  /** The tail shared by the direct path and the forked child: drop privilege, stage the security
      context, execve.  Nothing is executed unless all of it worked. */
  method DropAndExec(s: Session, p: Credentials.Process, t: Aim, se: string, aa: string)
    requires Caps.Fits(t.mask, Caps.LAST_CAP + 1) && s.nodes.events == []
    modifies s`events, s.nodes, p
    ensures || s.events == old(s.events)
            || (exists c :: CredsOk(c, t.uid, t.gid, t.mask) && Lsm.StagedFor(s.nodes.events, se, aa)
                  && ExactCreds(c, Origin(old(p.creds), p.lastCap, old(p.script), old(s.nodes.answers)),
                                t.gids, t.uid, t.gid, t.mask)
                  && s.events == old(s.events) + [LsmStaged, Exec(t.pty, t.image, c)])
    ensures Clear(Origin(old(p.creds), p.lastCap, old(p.script), old(s.nodes.answers)), t.mask, se, aa) ==>
              s.events == old(s.events)
                + [LsmStaged, Exec(t.pty, t.image, PrivilegeDrop.Dropped(old(p.creds), t.gids, t.uid, t.gid, t.mask))]
  {
    hide Lsm.StagedFor, Lsm.Willing, PrivilegeDrop.Dropped, PrivilegeDrop.RootWithFullSets, Credentials.AllHonest;
    hide Credentials.Truthful;
    Credentials.TruthfulNext(p.script);
    var ok := PrivilegeDrop.DropPrivileges(p, t.gids, t.uid, t.gid, t.mask);
    if !ok { return; }
    var r, _, _ := Lsm.ApplyExec(s.nodes, se, aa);
    if r < 0 { return; }
    assert s.nodes.events[0..] == s.nodes.events;
    s.Log(LsmStaged);
    s.Log(Exec(t.pty, t.image, p.creds));
    assert CredsOk(p.creds, t.uid, t.gid, t.mask);
    assert ExactCreds(p.creds, Origin(old(p.creds), p.lastCap, old(p.script), old(s.nodes.answers)),
                      t.gids, t.uid, t.gid, t.mask);
    assert s.events == old(s.events) + [LsmStaged, Exec(t.pty, t.image, p.creds)];
  }

  /** What else decided the run: whether the credential cache was fresh when it started, whether the
      prompt was passed, what was staged with the security modules, and what the drop started from. */
  datatype Facts = Facts(cached: bool, passed: bool, staged: seq<Lsm.LsmEvent>, origin: Origin)

  /** Authentication was waived, cached or passed, and the transcripts the grant asks for are open. */
  predicate Prepared(before: seq<Event>, h: Host, cached: bool, passed: bool, a: Authorization.Authz)
    requires a.Allowed?
  {
    && (a.requireAuth ==> cached || (passed && AuthPassed in before))
    && (a.logSession ==> h.logOpens && LogOpened(false) in before)
    && (a.logSession && a.logInput ==> h.inputLogOpens && LogOpened(true) in before)
  }

  /** What the grant asks of an execve `x` with these events before it. */
  ghost predicate GrantKept(before: seq<Event>, x: Event, h: Host, uid: nat, gid: nat, f: Facts,
                            a: Authorization.Authz)
    requires a.Allowed? && x.Exec?
  {
    && Prepared(before, h, f.cached, f.passed, a)
    && Audited(true) in before && LsmStaged in before
    && Lsm.StagedFor(f.staged, a.selinux, a.apparmor)
    && (exists mask: nat :: Caps.Denotes(a.capabilities, mask) && CredsOk(x.creds, uid, gid, mask)
                           && ExactCreds(x.creds, f.origin, h.targetGroups, uid, gid, mask))
    && (x.pty <==> a.logSession || (uid != h.callerUid && uid != 0))
    && (x.pty ==> h.ptyReady && h.childReady)
  }

  /** What the run started with: the credential cache's record, its clock and directory, whether the
      prompt would be passed, and what the drop starts from. */
  datatype Start = Start(history: seq<Timestamp.Op>, now: nat, dir: Option<Timestamp.DirStat>, passed: bool,
                         origin: Origin)

  ghost function StartOf(s: Session): Start
    reads s.cache, s.console, s.process, s.nodes
  {
    Start(s.cache.history, s.cache.now, s.cache.dir, PromptPasses(s), OriginOf(s))
  }

  /** The facts that a grant under this policy looks at. */
  ghost function FactsFor(st: Start, staged: seq<Lsm.LsmEvent>, h: Host, p: Policy, caller: string): Facts {
    Facts(CachedAt(st.history, st.now, h, p, caller), st.passed, staged, st.origin)
  }

  /** Everything that must hold when execve `x` is reached with these events before it.  The words the
      policy was asked about are the words that are executed. */
  ghost predicate Gates(before: seq<Event>, x: Event, cli: Cli, h: Host, st: Start, staged: seq<Lsm.LsmEvent>)
    requires x.Exec?
  {
    && cli.mode == Command && cli.argv != []
    && var caller := Passwd.LookupUid(h.passwd, h.callerUid);
       var target := Passwd.LookupUser(h.passwd, cli.target);
       && caller.Uid? && target.User? && Runnable(h, caller.name)
       && x.image.path == h.resolved.value && x.image.argv == cli.argv[0 := h.resolved.value]
       && exists p, a ::
            && PolicyIs(h, p)
            && Grants(h, p, caller.name, cli.target, JoinSpace(x.image.argv), a)
            && EnvFor(x.image.env, h, p, caller.name, cli.target)
            && GrantKept(before, x, h, target.uid, target.gid, FactsFor(st, staged, h, p, caller.name), a)
  }

  /** Every execve in the record went through the gates. */
  ghost predicate Gated(events: seq<Event>, cli: Cli, h: Host, st: Start, staged: seq<Lsm.LsmEvent>) {
    forall i :: 0 <= i < |events| && events[i].Exec? ==> Gates(events[..i], events[i], cli, h, st, staged)
  }

  /** Whether the prompt would be passed now. */
  predicate PromptPasses(s: Session)
    reads s.console
  {
    Password.Accepted(s.console.input, s.console.results, 1)
  }

  /** The prompt is needed: the grant asks for authentication and no credential is cached. */
  predicate MustAsk(e: Evaluation) { e.requireAuth && !e.timestampValid }

  /** The credential cache takes a new entry. */
  predicate CacheTakes(h: Host, caller: string, dir: Option<Timestamp.DirStat>) {
    Timestamp.UserOk(caller) && Timestamp.Usable(dir) && h.mkdirOk && h.openOk
  }

  function KeyOf(h: Host, caller: string): Timestamp.Key { (caller, Timestamp.SessionId(h.link)) }

  /** The password step: waived, cached, or passed now, which refreshes the cache. */
  method Authenticate(s: Session, e: Evaluation, caller: string, h: Host) returns (ok: bool)
    requires s.events == [] && s.pbuf.Length == Password.PW_BUF_CAP && Password.Zeroed(s.pbuf[..])
    requires s.cache.Valid() && ':' !in caller && NUL !in h.link
    modifies s`events, s.console, s.cache, s.pbuf
    ensures s.cache.Valid() && Password.Zeroed(s.pbuf[..])
    ensures ok <==> !MustAsk(e) || old(PromptPasses(s))
    ensures s.events == if MustAsk(e) then [if ok then AuthPassed else AuthFailed] else []
    ensures !MustAsk(e) ==> s.console.asked == old(s.console.asked) && s.cache.history == old(s.cache.history)
    ensures var updated := old(s.cache.history) + [Timestamp.Updated(KeyOf(h, caller), old(s.cache.now))];
            && (s.cache.history == old(s.cache.history) || (ok && MustAsk(e) && s.cache.history == updated))
            && (ok && MustAsk(e) && CacheTakes(h, caller, old(s.cache.dir)) ==> s.cache.history == updated)
  {
    hide Password.Accepted;
    ok := true;
    if e.requireAuth && !e.timestampValid {
      ok := Password.PromptAndAuthenticate(s.console, caller, s.pbuf);
      s.Log(if ok then AuthPassed else AuthFailed);
      if ok { var code := s.cache.Update(caller, h.link, h.mkdirOk, h.openOk); }
    }
  }

  /** Open the transcripts the grant asks for; without them the run is refused. */
  method OpenLogs(s: Session, e: Evaluation, h: Host) returns (ok: bool)
    requires NoExec(s.events)
    modifies s`events
    ensures NoExec(s.events) && old(s.events) <= s.events
    ensures !ok ==> s.events != [] && s.events[|s.events| - 1] == Audited(false)
    ensures ok <==> (e.logSession ==> h.logOpens && (e.logInput ==> h.inputLogOpens))
    ensures ok && e.logSession ==> LogOpened(false) in s.events
    ensures ok && e.logSession && e.logInput ==> LogOpened(true) in s.events
  {
    if !e.logSession { return true; }
    if !h.logOpens {
      s.Log(Audited(false));
      return false;
    }
    s.Log(LogOpened(false));
    if e.logInput {
      if !h.inputLogOpens {
        s.Log(Audited(false));
        return false;
      }
      s.Log(LogOpened(true));
    }
    ok := true;
  }

  /** The record of a launch that reached execve. */
  ghost predicate Launched(events: seq<Event>, before: seq<Event>, h: Host, t: Aim, o: Origin,
                           staged: seq<Lsm.LsmEvent>, se: string, aa: string)
  {
    && (t.pty ==> h.ptyReady && h.childReady)
    && Lsm.StagedFor(staged, se, aa)
    && exists c :: CredsOk(c, t.uid, t.gid, t.mask) && ExactCreds(c, o, t.gids, t.uid, t.gid, t.mask)
         && events == before + [Audited(true), LsmStaged, Exec(t.pty, t.image, c)]
  }

  /** The last stretch of the run, from the audited grant to execve in this process or in the child
      behind a PTY.  The child works on its own copy of the credentials. */
  method Launch(s: Session, t: Aim, h: Host, se: string, aa: string)
    requires Caps.Fits(t.mask, Caps.LAST_CAP + 1) && NoExec(s.events) && s.nodes.events == []
    modifies s`events, s.nodes, s.process
    ensures NoExec(s.events) || Launched(s.events, old(s.events), h, t, old(OriginOf(s)), s.nodes.events, se, aa)
    ensures && Clear(old(OriginOf(s)), t.mask, se, aa)
            && (t.pty ==> h.ptyReady && h.childReady) ==>
              s.events == old(s.events) + [Audited(true), LsmStaged, Exec(t.pty, t.image,
                PrivilegeDrop.Dropped(old(s.process.creds), t.gids, t.uid, t.gid, t.mask))]
  {
    hide Lsm.StagedFor, PrivilegeDrop.Dropped, Clear, CredsOk, ExactCreds;
    ghost var o := OriginOf(s);
    s.Log(Audited(true));
    ghost var before := s.events;
    if t.pty {
      if !h.ptyReady || !h.childReady { return; }
      var child := new Credentials.Process(s.process.lastCap, s.process.creds, s.process.script);
      DropAndExec(s, child, t, se, aa);
    } else {
      DropAndExec(s, s.process, t, se, aa);
    }
    if s.events != before {
      var c :| CredsOk(c, t.uid, t.gid, t.mask) && ExactCreds(c, o, t.gids, t.uid, t.gid, t.mask)
               && s.events == before + [LsmStaged, Exec(t.pty, t.image, c)];
      assert s.events == old(s.events) + [Audited(true), LsmStaged, Exec(t.pty, t.image, c)];
    }
  }

  /** The record ends in its only execve, of this image, and what the grant asks is kept. */
  ghost predicate EndsInExec(events: seq<Event>, image: Image, h: Host, uid: nat, gid: nat, f: Facts,
                             a: Authorization.Authz)
    requires a.Allowed?
  {
    && events != []
    && var before, x := events[..|events| - 1], events[|events| - 1];
       && NoExec(before) && x.Exec? && x.image == image
       && GrantKept(before, x, h, uid, gid, f, a)
  }

  lemma LaunchedIsKept(events: seq<Event>, before: seq<Event>, h: Host, t: Aim, f: Facts, a: Authorization.Authz)
    requires a.Allowed? && NoExec(before) && Prepared(before, h, f.cached, f.passed, a)
    requires Launched(events, before, h, t, f.origin, f.staged, a.selinux, a.apparmor) && t.gids == h.targetGroups
    requires Caps.Denotes(a.capabilities, t.mask) && t.pty == Relay.NeedsPty(a.logSession, h.callerUid, t.uid)
    ensures EndsInExec(events, t.image, h, t.uid, t.gid, f, a)
  {
    hide Lsm.StagedFor, CredsOk, ExactCreds, Caps.Denotes;
    var c :| CredsOk(c, t.uid, t.gid, t.mask) && ExactCreds(c, f.origin, t.gids, t.uid, t.gid, t.mask)
             && events == before + [Audited(true), LsmStaged, Exec(t.pty, t.image, c)];
    var pre := events[..|events| - 1];
    assert pre == before + [Audited(true), LsmStaged];
    assert pre[|before|] == Audited(true) && pre[|before| + 1] == LsmStaged;
  }

  /** Nothing about the request, the caller or the host refuses it: the mirror image of the gates. */
  predicate Admitted(h: Host, uid: nat, cached: bool, passed: bool, a: Authorization.Authz)
    requires a.Allowed?
  {
    && (a.requireAuth ==> cached || passed)
    && (a.logSession ==> h.logOpens && (a.logInput ==> h.inputLogOpens))
    && (Relay.NeedsPty(a.logSession, h.callerUid, uid) ==> h.ptyReady && h.childReady)
  }

  /** The record ends in an execve with these credentials. */
  predicate ExecutesAs(events: seq<Event>, pty: bool, creds: Credentials.Creds) {
    events != [] && var x := events[|events| - 1]; x.Exec? && x.pty == pty && x.creds == creds
  }

  /** What a granted command's run comes to: no execve, or one at the end that went through the gates. */
  ghost predicate GrantedRun(events: seq<Event>, e: Evaluation, image: Image, h: Host, target: string, f: Facts) {
    var t := Passwd.LookupUser(h.passwd, target);
    NoExec(events) || (t.User? && EndsInExec(events, image, h, t.uid, t.gid, f, GrantOf(e)))
  }

  /** And it comes to an execve when nothing refuses it. */
  ghost predicate GrantedCompletes(events: seq<Event>, e: Evaluation, h: Host, target: string,
                                   passed: bool, o: Origin)
  {
    var t := Passwd.LookupUser(h.passwd, target);
    forall mask: nat ::
      && target != "" && t.User? && Admitted(h, t.uid, e.timestampValid, passed, GrantOf(e))
      && Caps.Denotes(e.capabilities, mask) && Clear(o, mask, e.selinux, e.apparmor) ==>
        ExecutesAs(events, Relay.NeedsPty(e.logSession, h.callerUid, t.uid),
                   PrivilegeDrop.Dropped(o.creds, h.targetGroups, t.uid, t.gid, mask))
  }

  /** From the authenticated caller on: find the target, open the transcripts, launch. */
  method RunAuthenticated(s: Session, e: Evaluation, h: Host, target: string, mask: nat, ghost passed: bool)
    requires NoExec(s.events) && s.nodes.events == []
    requires Caps.Denotes(e.capabilities, mask) && Caps.Fits(mask, Caps.LAST_CAP + 1)
    requires forall m: int :: Caps.Denotes(e.capabilities, m) ==> m == mask
    requires e.requireAuth ==> e.timestampValid || (passed && AuthPassed in s.events)
    modifies s`events, s.process, s.nodes
    ensures GrantedRun(s.events, e, Image(e.resolved, s.argv[..], e.env), h, target,
                       Facts(e.timestampValid, passed, s.nodes.events, old(OriginOf(s))))
    ensures GrantedCompletes(s.events, e, h, target, passed, old(OriginOf(s)))
  {
    hide Passwd.LookupUser, Caps.Denotes, Clear, PrivilegeDrop.Dropped, EndsInExec, Launched;
    ghost var o := OriginOf(s);
    var found := Passwd.IdentityLookupUser(h.passwd, target);
    if found.NoUser? { return; }
    var usePty := Relay.NeedsPty(e.logSession, h.callerUid, found.uid);
    var ok := OpenLogs(s, e, h);
    if !ok { return; }
    ghost var before := s.events;
    var aim := Aim(usePty, Image(e.resolved, s.argv[..], e.env), h.targetGroups, found.uid, found.gid, mask);
    Launch(s, aim, h, e.selinux, e.apparmor);
    if !NoExec(s.events) {
      LaunchedIsKept(s.events, before, h, aim, Facts(e.timestampValid, passed, s.nodes.events, o), GrantOf(e));
    }
  }

  /** How a granted run that does not get as far as the target ends, and what the cache remembers of it:
      an unknown capability is refused, and so is a failed prompt; a passed one is remembered. */
  ghost predicate Recorded(events: seq<Event>, history: seq<Timestamp.Op>, known: bool, ask: bool, takes: bool,
                           st: Start, key: Timestamp.Key)
  {
    var updated := st.history + [Timestamp.Updated(key, st.now)];
    && (!known ==> events == [Audited(false)])
    && (known && ask && !st.passed ==> events == [AuthFailed, Audited(false)])
    && (known && ask && st.passed && takes ==> history == updated)
    && (history == st.history || (known && ask && st.passed && history == updated))
  }

  /** The run of a command that the policy granted. */
  method RunGranted(s: Session, e: Evaluation, caller: string, h: Host, target: string)
    requires s.events == [] && s.pbuf.Length == Password.PW_BUF_CAP && Password.Zeroed(s.pbuf[..])
    requires s.cache.Valid() && ':' !in caller && NUL !in h.link && s.nodes.events == []
    modifies s`events, s.process, s.nodes, s.console, s.cache, s.pbuf
    ensures s.cache.Valid() && Password.Zeroed(s.pbuf[..])
    ensures GrantedRun(s.events, e, Image(e.resolved, s.argv[..], e.env), h, target,
                       Facts(e.timestampValid, old(PromptPasses(s)), s.nodes.events, old(OriginOf(s))))
    ensures GrantedCompletes(s.events, e, h, target, old(PromptPasses(s)), old(OriginOf(s)))
    ensures Recorded(s.events, s.cache.history, Caps.AllKnown(e.capabilities), MustAsk(e),
                     CacheTakes(h, caller, old(s.cache.dir)), old(StartOf(s)), KeyOf(h, caller))
  {
    hide PromptPasses, Passwd.LookupUser, Caps.Denotes, Caps.AllKnown, EndsInExec, MustAsk, CacheTakes;
    hide GrantedCompletes;
    var capMask := Caps.ParseSet(e.capabilities);
    DenotedOnce(e.capabilities, capMask);
    if capMask < 0 {
      s.Log(Audited(false));
      UnknownCompletes(s.events, e, h, target, old(PromptPasses(s)), old(OriginOf(s)), capMask);
      return;
    }
    var ok := Authenticate(s, e, caller, h);
    if !ok {
      s.Log(Audited(false));
      FailedCompletes(s.events, e, h, target, old(PromptPasses(s)), old(OriginOf(s)));
      return;
    }
    AskedOrNot(e);
    RunAuthenticated(s, e, h, target, capMask, old(PromptPasses(s)));
  }

  /** With an unknown capability there is nothing to carry out. */
  lemma UnknownCompletes(events: seq<Event>, e: Evaluation, h: Host, target: string, passed: bool, o: Origin,
                         mask: int)
    requires mask < 0 && Caps.Denotes(e.capabilities, mask)
    ensures GrantedCompletes(events, e, h, target, passed, o)
  {
    DenotedOnce(e.capabilities, mask);
    hide Caps.Denotes, Admitted, Clear, ExecutesAs, PrivilegeDrop.Dropped;
    forall m: nat | Caps.Denotes(e.capabilities, m) ensures false {
    }
  }

  /** Nor is there after a failed prompt. */
  lemma FailedCompletes(events: seq<Event>, e: Evaluation, h: Host, target: string, passed: bool, o: Origin)
    requires MustAsk(e) && !passed
    ensures GrantedCompletes(events, e, h, target, passed, o)
  {
    hide Caps.Denotes, Clear, ExecutesAs, PrivilegeDrop.Dropped;
  }

  lemma AskedOrNot(e: Evaluation)
    ensures e.requireAuth ==> e.timestampValid || MustAsk(e)
  {
  }

  /** A name list denotes one mask, which is refused when it is negative and fits the table when not. */
  lemma DenotedOnce(names: seq<string>, mask: int)
    requires Caps.Denotes(names, mask)
    ensures forall m: int :: Caps.Denotes(names, m) ==> m == mask
    ensures mask >= 0 ==> Caps.Fits(mask, Caps.LAST_CAP + 1)
    ensures mask >= 0 <==> Caps.AllKnown(names)
  {
    forall m: int | Caps.Denotes(names, m) ensures m == mask { Caps.MaskDependsOnSet(names, names, m, mask); }
  }

  ghost predicate Refuses(h: Host, p: Policy, caller: string, target: string, command: string) {
    forall a :: !Grants(h, p, caller, target, command, a)
  }

  /** The policy `p`, which is the one in force, grants this command with `a`. */
  ghost predicate Granted(cli: Cli, h: Host, p: Policy, caller: string, a: Authorization.Authz) {
    && cli.argv != [] && PolicyIs(h, p) && Runnable(h, caller) && a.Allowed?
    && Grants(h, p, caller, cli.target, JoinSpace(cli.argv[0 := h.resolved.value]), a)
  }

  /** The request is one that a run carries out: a granted command for a target that the password file
      knows. */
  ghost predicate Wanted(cli: Cli, h: Host, p: Policy, caller: string, a: Authorization.Authz) {
    && cli.mode == Command && cli.target != "" && Passwd.LookupUser(h.passwd, cli.target).User?
    && a.Allowed? && Granted(cli, h, p, caller, a)
  }

  /** A session that has not done anything yet. */
  ghost predicate Started(s: Session, cli: Cli, h: Host)
    reads s, s.nodes, s.pbuf, s.cache, s.argv, s.environ
  {
    && s.events == [] && s.nodes.events == [] && s.cache.Valid()
    && s.pbuf.Length == Password.PW_BUF_CAP && Password.Zeroed(s.pbuf[..])
    && s.argv[..] == cli.argv && NUL !in h.link
    && s.environ.rest == h.environ && s.environ.sizes == h.environSizes
  }

  /** If the request is one to carry out, nothing about it is refused and every system call behaves,
      then the record ends in its execve, with exactly the credentials of an undisturbed drop. */
  ghost predicate Completes(events: seq<Event>, cli: Cli, h: Host, caller: string, st: Start) {
    var o := st.origin;
    var t := Passwd.LookupUser(h.passwd, cli.target);
    forall p, a, mask: nat ::
      && Wanted(cli, h, p, caller, a) && Caps.Denotes(a.capabilities, mask)
      && Admitted(h, t.uid, CachedAt(st.history, st.now, h, p, caller), st.passed, a)
      && Clear(o, mask, a.selinux, a.apparmor) ==>
        ExecutesAs(events, Relay.NeedsPty(a.logSession, h.callerUid, t.uid),
                   PrivilegeDrop.Dropped(o.creds, h.targetGroups, t.uid, t.gid, mask))
  }

  /** What a granted request leaves in the record and in the cache when it stops before its target, for
      the grant of the policy in force. */
  ghost predicate Remembers(events: seq<Event>, history: seq<Timestamp.Op>, cli: Cli, h: Host, caller: string,
                            st: Start)
  {
    forall p: Policy, a: Authorization.Authz ::
      a.Allowed? && Granted(cli, h, p, caller, a) ==>
        Recorded(events, history, Caps.AllKnown(a.capabilities),
                 a.requireAuth && !CachedAt(st.history, st.now, h, p, caller), CacheTakes(h, caller, st.dir),
                 st, KeyOf(h, caller))
  }

  /** What an invalidation leaves: a record of success exactly when the credential was forgotten, and it
      is when nothing is in the way. */
  ghost predicate Forgets(events: seq<Event>, history: seq<Timestamp.Op>, h: Host, caller: string, st: Start) {
    var forgotten := st.history + [Timestamp.Invalidated(KeyOf(h, caller))];
    && ((events == [Audited(true)] && history == forgotten) || (events == [] && history == st.history))
    && (Timestamp.UserOk(caller) && h.unlinkOk ==> history == forgotten)
  }

  /** THE EXEC GATE.  Over every run: execve is reached only for a command that the loaded policy grants
      to the caller that the password file names, and what is executed is word for word what the policy
      was asked about, in the sanitized environment; its capability names are all known; authentication
      was waived, cached or passed; the grant is audited and the required transcripts are open; the
      grant's security contexts are staged; the ids are the target's from the password file and the
      effective set is exactly the granted one, with every other field of an undisturbed drop when no
      call lies; and a PTY is used exactly when something is logged or the target is neither root nor the
      caller.  And a run that nothing refuses does complete.  A command that the policy refuses leaves one
      refusal in the record and nothing else; a passed prompt is remembered, and an invalidation
      forgets. */
  method ShkRun(s: Session, cli: Cli, h: Host)
    requires Started(s, cli, h)
    modifies s, s.process, s.nodes, s.console, s.cache, s.environ, s.pbuf, s.argv
    ensures s.cache.Valid() && Password.Zeroed(s.pbuf[..])
    ensures var id := Passwd.LookupUid(h.passwd, h.callerUid);
            if id.Uid? then Gated(s.events, cli, h, old(StartOf(s)), s.nodes.events) else s.events == []
    ensures var id := Passwd.LookupUid(h.passwd, h.callerUid);
            id.Uid? ==> Completes(s.events, cli, h, id.name, old(StartOf(s)))
    ensures var id := Passwd.LookupUid(h.passwd, h.callerUid);
            id.Uid? && cli.mode == Command && cli.argv != [] && HasPolicy(h)
            && (Runnable(h, id.name) ==> forall p :: PolicyIs(h, p) ==>
                  Refuses(h, p, id.name, cli.target, JoinSpace(cli.argv[0 := h.resolved.value]))) ==>
              s.events == [Audited(false)] && s.cache.history == old(s.cache.history)
    ensures var id := Passwd.LookupUid(h.passwd, h.callerUid);
            id.Uid? && cli.mode == Command && cli.argv != [] ==>
              Remembers(s.events, s.cache.history, cli, h, id.name, old(StartOf(s)))
    ensures var id := Passwd.LookupUid(h.passwd, h.callerUid);
            id.Uid? && cli.mode == Invalidate ==>
              Forgets(s.events, s.cache.history, h, id.name, old(StartOf(s)))
    ensures var id := Passwd.LookupUid(h.passwd, h.callerUid);
            id.NoUid? || (cli.mode != Command && cli.mode != Invalidate)
            || (cli.mode == Command && (cli.argv == [] || !HasPolicy(h))) ==>
              s.events == [] && s.cache.history == old(s.cache.history)
  {
    hide Grants, JoinSpace, Runnable, EnvFor, Admitted, Clear, CachedAt, Gates, GrantedRun, GrantedCompletes;
    hide Passwd.LookupUid, Passwd.LookupUser, Caps.Denotes, PrivilegeDrop.Dropped, Password.Accepted;
    hide Fragments.Defines, Recorded, CacheTakes;
    if cli.mode.Help? || cli.mode.Version? { return; }
    var found := Passwd.IdentityLookupUid(h.passwd, h.callerUid);
    if found.NoUid? { return; }
    var caller := found.name;
    Passwd.FoundNamesHaveNoColon(h.passwd, h.callerUid);
    if cli.mode.Invalidate? {
      var code := s.cache.Invalidate(caller, h.link, h.unlinkOk);
      if code == Timestamp.OK { s.Log(Audited(true)); }
      return;
    }
    if !cli.mode.Check? && !cli.mode.List? && s.argv.Length == 0 { return; }
    var loaded := Fragments.LoadPolicy(h.file, h.dirAt, h.fileAt);
    if loaded == null { return; }
    var p := loaded.Value();
    if cli.mode.Check? { return; }
    if cli.mode.List? { return; }
    ghost var st := StartOf(s);
    var e := EvaluateWithPolicy(Interactive, p, caller, h, cli.target, s.argv, s.cache, s.environ);
    if !e.authorized {
      s.Log(Audited(false));
      RefusedCompletes(s.events, cli, h, p, caller, st);
      RefusedRemembers(s.events, s.cache.history, cli, h, p, caller, st);
      return;
    }
    ghost var image := Image(e.resolved, s.argv[..], e.env);
    RunGranted(s, e, caller, h, cli.target);
    EndIsGated(s.events, e, cli, h, p, caller, image, st, s.nodes.events);
    EndCompletes(s.events, e, cli, h, p, caller, image, st);
    EndRemembers(s.events, s.cache.history, e, cli, h, p, caller, image, st);
  }

  lemma RefusedIsNotGranted(cli: Cli, h: Host, p: Policy, p': Policy, caller: string, a: Authorization.Authz)
    requires cli.argv != [] && PolicyIs(h, p)
    requires Runnable(h, caller) ==> Refuses(h, p, caller, cli.target, JoinSpace(cli.argv[0 := h.resolved.value]))
    ensures !Granted(cli, h, p', caller, a)
  {
    hide Grants, JoinSpace, Runnable, PolicyIs;
    if Granted(cli, h, p', caller, a) { OnePolicy(h, p, p'); }
  }

  lemma RefusedRemembers(events: seq<Event>, history: seq<Timestamp.Op>, cli: Cli, h: Host, p: Policy,
                         caller: string, st: Start)
    requires cli.argv != [] && PolicyIs(h, p)
    requires Runnable(h, caller) ==> Refuses(h, p, caller, cli.target, JoinSpace(cli.argv[0 := h.resolved.value]))
    ensures Remembers(events, history, cli, h, caller, st)
  {
    hide Recorded;
    forall p': Policy, a: Authorization.Authz | Granted(cli, h, p', caller, a) ensures false {
      RefusedIsNotGranted(cli, h, p, p', caller, a);
    }
  }

  lemma EndRemembers(events: seq<Event>, history: seq<Timestamp.Op>, e: Evaluation, cli: Cli, h: Host, p: Policy,
                     caller: string, image: Image, st: Start)
    requires cli.argv != [] && PolicyIs(h, p) && Runnable(h, caller)
    requires image.argv == cli.argv[0 := h.resolved.value]
    requires forall a :: Grants(h, p, caller, cli.target, JoinSpace(image.argv), a) ==> GrantOf(e) == a
    requires e.requireAuth ==> (CachedAt(st.history, st.now, h, p, caller) <==> e.timestampValid)
    requires Recorded(events, history, Caps.AllKnown(e.capabilities), MustAsk(e), CacheTakes(h, caller, st.dir),
                      st, KeyOf(h, caller))
    ensures Remembers(events, history, cli, h, caller, st)
  {
    hide Grants, JoinSpace, Runnable, PolicyIs, Recorded, CachedAt, CacheTakes, Caps.AllKnown;
    forall p': Policy, a: Authorization.Authz | a.Allowed? && Granted(cli, h, p', caller, a)
      ensures Recorded(events, history, Caps.AllKnown(a.capabilities),
                       a.requireAuth && !CachedAt(st.history, st.now, h, p', caller),
                       CacheTakes(h, caller, st.dir), st, KeyOf(h, caller))
    {
      OnePolicy(h, p, p');
      assert a == GrantOf(e);
    }
  }

  /** The evaluation's answer about the cache is sound where it counts. */
  lemma EndIsGated(events: seq<Event>, e: Evaluation, cli: Cli, h: Host, p: Policy, caller: string, image: Image,
                   st: Start, staged: seq<Lsm.LsmEvent>)
    requires cli.mode == Command && cli.argv != [] && PolicyIs(h, p) && Runnable(h, caller)
    requires Passwd.LookupUid(h.passwd, h.callerUid).Uid? && Passwd.LookupUid(h.passwd, h.callerUid).name == caller
    requires image.path == h.resolved.value && image.argv == cli.argv[0 := h.resolved.value]
    requires EnvFor(image.env, h, p, caller, cli.target)
    requires Grants(h, p, caller, cli.target, JoinSpace(image.argv), GrantOf(e))
    requires e.timestampValid ==> CachedAt(st.history, st.now, h, p, caller)
    requires GrantedRun(events, e, image, h, cli.target, Facts(e.timestampValid, st.passed, staged, st.origin))
    ensures Gated(events, cli, h, st, staged)
  {
    var t := Passwd.LookupUser(h.passwd, cli.target);
    hide Grants, JoinSpace, EnvFor, Caps.Denotes, CredsOk, Lsm.StagedFor, Runnable, PolicyIs, CachedAt;
    hide Passwd.LookupUid, Passwd.LookupUser;
    if !NoExec(events) {
      var n := |events| - 1;
      var before, x := events[..n], events[n];
      assert GrantKept(before, x, h, t.uid, t.gid, FactsFor(st, staged, h, p, caller), GrantOf(e));
      assert Gates(before, x, cli, h, st, staged);
      forall i | 0 <= i < |events| && events[i].Exec? ensures Gates(events[..i], events[i], cli, h, st, staged) {
        assert forall j :: 0 <= j < n ==> events[j] == before[j] && before[j] in before;
      }
    }
  }

  lemma RefusedCompletes(events: seq<Event>, cli: Cli, h: Host, p: Policy, caller: string, st: Start)
    requires cli.argv != [] && PolicyIs(h, p)
    requires Runnable(h, caller) ==> Refuses(h, p, caller, cli.target, JoinSpace(cli.argv[0 := h.resolved.value]))
    ensures Completes(events, cli, h, caller, st)
  {
    hide Granted;
    forall p', a | Wanted(cli, h, p', caller, a) ensures false {
      RefusedIsNotGranted(cli, h, p, p', caller, a);
    }
  }

  /** The evaluation's grant is the only one, and its answer about the cache is complete where it
      counts. */
  lemma EndCompletes(events: seq<Event>, e: Evaluation, cli: Cli, h: Host, p: Policy, caller: string, image: Image,
                     st: Start)
    requires cli.argv != [] && PolicyIs(h, p) && Runnable(h, caller)
    requires image.argv == cli.argv[0 := h.resolved.value]
    requires forall a :: Grants(h, p, caller, cli.target, JoinSpace(image.argv), a) ==> GrantOf(e) == a
    requires e.requireAuth && CachedAt(st.history, st.now, h, p, caller) ==> e.timestampValid
    requires GrantedCompletes(events, e, h, cli.target, st.passed, st.origin)
    ensures Completes(events, cli, h, caller, st)
  {
    var t := Passwd.LookupUser(h.passwd, cli.target);
    hide Grants, JoinSpace, Runnable, Caps.Denotes, Clear, PrivilegeDrop.Dropped, Passwd.LookupUser, PolicyIs, CachedAt;
    forall p', a, mask: nat |
      && Wanted(cli, h, p', caller, a) && Caps.Denotes(a.capabilities, mask)
      && Admitted(h, t.uid, CachedAt(st.history, st.now, h, p', caller), st.passed, a)
      && Clear(st.origin, mask, a.selinux, a.apparmor)
      ensures ExecutesAs(events, Relay.NeedsPty(a.logSession, h.callerUid, t.uid),
                         PrivilegeDrop.Dropped(st.origin.creds, h.targetGroups, t.uid, t.gid, mask))
    {
      OnePolicy(h, p, p');
      assert a == GrantOf(e);
      assert Admitted(h, t.uid, e.timestampValid, st.passed, a);
    }
  }

  lemma FixedInEnv(env: seq<string>, h: Host, p: Policy, caller: string, target: string, i: nat)
    requires i < 8 && EnvFor(env, h, p, caller, target)
    ensures Environment.Lookup(env, Environment.FIXED_KEYS[i])
              == Some(Environment.FixedValues(CallerOf(h, caller), TargetOf(h, target))[i])
  {
    hide Environment.Kept, Environment.Entries, Environment.Fixed, Environment.FixedValues, Environment.Lookup;
    var c, t := CallerOf(h, caller), TargetOf(h, target);
    var keep := p.defaults.envKeep;
    var n :| 0 <= n <= |h.environ|
             && env == Environment.Fixed(c, t) + Environment.Kept(Environment.Entries(h.environ[..n]), keep);
    Environment.FixedValuesWin(c, t, Environment.Kept(Environment.Entries(h.environ[..n]), keep), i);
  }

  /** Whatever the caller exports and whatever the policy keeps, an executed program finds the fixed
      value of each of the eight fixed variables. */
  lemma ExecSeesFixedValues(before: seq<Event>, x: Event, cli: Cli, h: Host, st: Start,
                            staged: seq<Lsm.LsmEvent>, i: nat)
    requires x.Exec? && i < 8 && Gates(before, x, cli, h, st, staged)
    ensures var caller := Passwd.LookupUid(h.passwd, h.callerUid).name;
            Environment.Lookup(x.image.env, Environment.FIXED_KEYS[i])
              == Some(Environment.FixedValues(CallerOf(h, caller), TargetOf(h, cli.target))[i])
  {
    hide Environment.Fixed, Environment.FixedValues, Environment.Lookup;
    hide Grants, GrantKept, Runnable, PolicyIs, EnvFor;
    var caller := Passwd.LookupUid(h.passwd, h.callerUid).name;
    var p: Policy :| EnvFor(x.image.env, h, p, caller, cli.target);
    FixedInEnv(x.image.env, h, p, caller, cli.target, i);
  }
}
