/** The per-terminal credential cache: files in one directory and a clock, refining an abstract
    record of who authenticated where and when. */
module Timestamp {
  import opened Text

  // ---- Names -----------------------------------------------------------------------------

  const OK := 0
  const ERR_EMPTY_USER := 1
  const ERR_PATH_TRAVERSAL := 2
  const ERR_NULL_BYTE := 3
  const ERR_IO := 12
  const ERR_OWNER := 16
  const ERR_WORLD_WRITABLE := 17
  const ERR_SYMLINK := 18

  const TIMESTAMP_DIR := "/var/run/agnos/sudo"

  /** Usable as one file name component. */
  predicate UserOk(user: string) {
    user != "" && user != "." && user != ".." && '/' !in user && NUL !in user
  }

  method ValidateUsername(user: string) returns (code: int)
    ensures code == OK <==> UserOk(user)
    ensures code == ERR_EMPTY_USER <==> user == ""
    ensures code == ERR_NULL_BYTE <==> exists i :: 0 <= i < |user| && user[i] == NUL && '/' !in user[..i]
    ensures code in [OK, ERR_EMPTY_USER, ERR_PATH_TRAVERSAL, ERR_NULL_BYTE]
  {
    var len := |user|;
    if len == 0 { return ERR_EMPTY_USER; }
    if len == 1 && user[0] == '.' { return ERR_PATH_TRAVERSAL; }
    if len == 2 && user[0] == '.' && user[1] == '.' { return ERR_PATH_TRAVERSAL; }
    var i := 0;
    while i < len
      invariant 0 <= i <= len
      invariant forall j :: 0 <= j < i ==> user[j] != '/' && user[j] != NUL
    {
      if user[i] == '/' { return ERR_PATH_TRAVERSAL; }
      if user[i] == NUL { return ERR_NULL_BYTE; }
      i := i + 1;
    }
    code := OK;
  }

  function Dashed(s: string): string {
    seq(|s|, i requires 0 <= i < |s| => if s[i] == '/' then '-' else s[i])
  }

  /** The session name of the terminal that stdin links to; empty when it is not under /dev. */
  function SessionId(link: string): string {
    var l := if |link| <= 255 then link else link[..255];
    if "/dev/" <= l then Dashed(CStr(l[5..])) else ""
  }

  /** Reads the link of stdin into a buffer and rewrites its slashes there. */
  method TtySession(link: string) returns (id: string)
    requires NUL !in link
    ensures id == SessionId(link)
  {
    var buf := new char[256];
    var n := if |link| <= 255 then |link| else 255;
    if n <= 0 { return ""; }
    forall i | 0 <= i < n { buf[i] := link[i]; }
    buf[n] := NUL;
    ghost var l := link[..n];
    assert l == if |link| <= 255 then link else link[..255];
    assert buf[..n] == l;
    if n < 5 || buf[0] != '/' || buf[1] != 'd' || buf[2] != 'e' || buf[3] != 'v' || buf[4] != '/' {
      return "";
    }
    CStrWhole(l[5..]);
    var i := 5;
    while buf[i] != NUL
      invariant 5 <= i <= n && buf[n] == NUL
      invariant forall j :: i <= j < n ==> buf[j] == l[j]
      invariant forall j :: 5 <= j < i ==> buf[j] == if l[j] == '/' then '-' else l[j]
      decreases n - i
    {
      if buf[i] == '/' { buf[i] := '-'; }
      i := i + 1;
    }
    assert i == n;
    id := buf[5..i];
    assert forall j :: 0 <= j < |id| ==> l[5..][j] == l[5 + j] && id[j] == buf[5 + j];
    assert id == Dashed(l[5..]);
  }

  function Path(user: string, session: string): string {
    TIMESTAMP_DIR + "/" + user + if session == "" then "" else ":" + session
  }

  /** Copies the parts of the path into one buffer. */
  method TimestampPath(user: string, session: string) returns (path: string)
    ensures path == Path(user, session)
  {
    var dir := TIMESTAMP_DIR;
    var dl, ul, tl := |dir|, |user|, |session|;
    var extra := if tl > 0 then 1 + tl else 0;
    var out := new char[dl + 1 + ul + extra];
    forall i | 0 <= i < dl { out[i] := dir[i]; }
    out[dl] := '/';
    forall i | 0 <= i < ul { out[dl + 1 + i] := user[i]; }
    if tl > 0 {
      out[dl + 1 + ul] := ':';
      forall i | 0 <= i < tl { out[dl + 1 + ul + 1 + i] := session[i]; }
    }
    path := out[..];
  }

  lemma NoColonSplit(u: string, s: string)
    requires ':' !in u
    ensures Find(u + if s == "" then "" else ":" + s, ':') == |u|
  {
    FindFirst(u, ':', |u|);
    if s == "" {
      assert u + "" == u;
    } else {
      FindInPrefix(u, ":" + s, ':');
      FindFirst(":" + s, ':', 0);
    }
  }

  /** Different users or sessions never share a file, as long as user names have no colon. */
  lemma PathInjective(u1: string, s1: string, u2: string, s2: string)
    requires ':' !in u1 && ':' !in u2
    ensures Path(u1, s1) == Path(u2, s2) <==> u1 == u2 && s1 == s2
  {
    var t1 := u1 + if s1 == "" then "" else ":" + s1;
    var t2 := u2 + if s2 == "" then "" else ":" + s2;
    var d := TIMESTAMP_DIR + "/";
    assert Path(u1, s1) == d + t1 && Path(u2, s2) == d + t2;
    if Path(u1, s1) == Path(u2, s2) {
      assert t1 == (d + t1)[|d|..] && t2 == (d + t2)[|d|..];
      NoColonSplit(u1, s1);
      NoColonSplit(u2, s2);
      assert u1 == t1[..|u1|] && u2 == t2[..|u2|];
      if s1 != "" { assert s1 == t1[|u1| + 1..]; }
      if s2 != "" { assert s2 == t2[|u2| + 1..]; }
    }
  }

  /** The condition is needed: with a colon in a user name two users share a file. */
  lemma ColonUsersCollide()
    ensures Path("a:b", "") == Path("a", "b")
  {
    assert "a:b" == "a" + ":" + "b";
  }

  /** The file is directly in the directory: what follows the directory is one usable file name. */
  lemma PathStaysInside(user: string, link: string)
    requires UserOk(user)
    ensures var p, d := Path(user, SessionId(link)), "/var/run/agnos/sudo/";
            && d + user <= p && UserOk(p[|d|..])
            && (SessionId(link) == "" ==> p == d + user)
            && (SessionId(link) != "" ==> p == d + user + ":" + SessionId(link))
  {
    var s := SessionId(link);
    var tail := user + if s == "" then "" else ":" + s;
    var d := "/var/run/agnos/sudo/";
    assert d == TIMESTAMP_DIR + "/";
    assert Path(user, s) == d + tail;
    assert (d + tail)[|d|..] == tail;
    SessionIsPlain(link);
    if s != "" { assert ':' in tail && ':' !in "." && ':' !in ".."; }
  }

  lemma SessionIsPlain(link: string)
    ensures '/' !in SessionId(link) && NUL !in SessionId(link)
  {
    var l := if |link| <= 255 then link else link[..255];
    if "/dev/" <= l { FindMeets(l[5..], NUL); }
  }

  /** Two terminals share a session name exactly when their names differ at most in slashes and dashes;
      what is no terminal under /dev has none. */
  lemma TerminalsApart(a: string, b: string)
    requires NUL !in a && NUL !in b && |a| <= 250 && |b| <= 250
    ensures SessionId("/dev/" + a) == SessionId("/dev/" + b) <==>
              |a| == |b| && forall i :: 0 <= i < |a| ==> a[i] == b[i] || (a[i] in "/-" && b[i] in "/-")
    ensures '/' !in a ==> SessionId("/dev/" + a) == a
    ensures !("/dev/" <= a) ==> SessionId(a) == ""
  {
    SessionOf(a);
    SessionOf(b);
    hide SessionId;
    var x, y := Dashed(a), Dashed(b);
    if x == y {
      assert |x| == |a| && |y| == |b|;
      forall i | 0 <= i < |a| ensures a[i] == b[i] || (a[i] in "/-" && b[i] in "/-") { assert x[i] == y[i]; }
    }
    if '/' !in a { assert x == a; }
  }

  lemma SessionOf(a: string)
    requires NUL !in a && |a| <= 250
    ensures SessionId("/dev/" + a) == Dashed(a)
    ensures !("/dev/" <= a) ==> SessionId(a) == ""
  {
    var link := "/dev/" + a;
    assert link[5..] == a;
    CStrWhole(a);
  }

  // ---- The abstract record ---------------------------------------------------------------

  type Key = (string, string)

  datatype Op = Updated(key: Key, time: nat) | Invalidated(key: Key)

  predicate Ordered(h: seq<Op>, now: nat) {
    && (forall i :: 0 <= i < |h| && h[i].Updated? ==> h[i].time <= now)
    && (forall i, j :: 0 <= i < j < |h| && h[i].Updated? && h[j].Updated? ==> h[i].time <= h[j].time)
  }

  lemma OrderedSnoc(h: seq<Op>, op: Op, now: nat)
    requires Ordered(h, now) && (op.Updated? ==> op.time == now)
    ensures Ordered(h + [op], now)
  {
  }

  /** `key` was updated less than `ttl` seconds before `now`, with no invalidation since. */
  ghost predicate Fresh(h: seq<Op>, key: Key, ttl: nat, now: nat) {
    exists i :: 0 <= i < |h| && h[i].Updated? && h[i].key == key && h[i].time + ttl > now
                && forall j :: i < j < |h| ==> h[j] != Invalidated(key)
  }

  function Current(h: seq<Op>): map<Key, nat> {
    if h == [] then map[]
    else
      var m := Current(h[..|h| - 1]);
      match h[|h| - 1]
      case Updated(key, time) => m[key := time]
      case Invalidated(key) => m - {key}
  }

  lemma FreshSnoc(h: seq<Op>, op: Op, key: Key, ttl: nat, now: nat)
    ensures Fresh(h + [op], key, ttl, now) <==>
              || (op.Updated? && op.key == key && op.time + ttl > now)
              || (op != Invalidated(key) && Fresh(h, key, ttl, now))
  {
    var h' := h + [op];
    if Fresh(h, key, ttl, now) && op != Invalidated(key) {
      var i :| 0 <= i < |h| && h[i].Updated? && h[i].key == key && h[i].time + ttl > now
               && forall j :: i < j < |h| ==> h[j] != Invalidated(key);
      assert h'[i] == h[i];
    }
    if op.Updated? && op.key == key && op.time + ttl > now { assert h'[|h|] == op; }
    if Fresh(h', key, ttl, now) {
      var i :| 0 <= i < |h'| && h'[i].Updated? && h'[i].key == key && h'[i].time + ttl > now
               && forall j :: i < j < |h'| ==> h'[j] != Invalidated(key);
      if i < |h| {
        assert h[i] == h'[i] && h'[|h|] == op;
        assert forall j :: i < j < |h| ==> h[j] == h'[j];
      }
    }
  }

  lemma {:induction false} CurrentComesFrom(h: seq<Op>, key: Key)
    requires key in Current(h)
    ensures exists i :: 0 <= i < |h| && h[i] == Updated(key, Current(h)[key])
  {
    var n := |h| - 1;
    if h[n] != Updated(key, Current(h)[key]) {
      CurrentComesFrom(h[..n], key);
      var i :| 0 <= i < n && h[..n][i] == Updated(key, Current(h[..n])[key]);
      assert h[i] == h[..n][i];
    }
  }

  /** With a clock that never goes back, the latest entry alone decides freshness. */
  lemma {:induction false} CurrentIsFresh(h: seq<Op>, key: Key, ttl: nat, now: nat)
    requires Ordered(h, now)
    ensures key in Current(h) && Current(h)[key] + ttl > now <==> Fresh(h, key, ttl, now)
  {
    if h != [] {
      var n := |h| - 1;
      var init, op := h[..n], h[n];
      assert h == init + [op];
      CurrentIsFresh(init, key, ttl, now);
      FreshSnoc(init, op, key, ttl, now);
      if op.Updated? && op.key == key && key in Current(init) {
        CurrentComesFrom(init, key);
        var i :| 0 <= i < |init| && init[i] == Updated(key, Current(init)[key]);
        assert h[i] == init[i];
      }
    }
  }

  /** The last word on a key decides.  After an update the credential is fresh for less than `ttl` seconds,
      and after an invalidation it is not, whatever happens to other users and sessions meanwhile. */
  lemma LastWordDecides(h: seq<Op>, last: Op, later: seq<Op>, ttl: nat, now: nat)
    requires Ordered(h + [last] + later, now) && forall op :: op in later ==> op.key != last.key
    ensures last.Updated? ==> (Fresh(h + [last] + later, last.key, ttl, now) <==> now - last.time < ttl)
    ensures last.Invalidated? ==> !Fresh(h + [last] + later, last.key, ttl, now)
  {
    var all, n := h + [last] + later, |h|;
    assert all[n] == last;
    assert forall i :: n < i < |all| ==> all[i] == later[i - n - 1] && all[i] in later;
    if last.Updated? && now - last.time < ttl {
      assert forall j :: n < j < |all| ==> all[j] != Invalidated(last.key);
    }
    if Fresh(all, last.key, ttl, now) {
      var i :| 0 <= i < |all| && all[i].Updated? && all[i].key == last.key && all[i].time + ttl > now
               && forall j :: i < j < |all| ==> all[j] != Invalidated(last.key);
      assert i <= n;
      assert last.Updated? ==> all[i].time <= last.time;
    }
  }

  // ---- The cache -------------------------------------------------------------------------

  datatype Kind = Regular | Directory | Symlink | Other

  datatype File = File(kind: Kind, uid: nat, mtime: nat)

  /** The cache directory as lstat shows it. */
  datatype DirStat = DirStat(kind: Kind, uid: nat, worldWritable: bool)

  predicate Safe(d: DirStat) { d.kind.Directory? && d.uid == 0 && !d.worldWritable }

  /** Absent, so that it will be made, or safe. */
  predicate Usable(dir: Option<DirStat>) { dir.Some? ==> Safe(dir.value) }

  /** The directory holds exactly one root-owned regular file for every current entry. */
  ghost predicate Holds(files: map<string, File>, current: map<Key, nat>) {
    && (forall k :: k in current ==> ':' !in k.0)
    && (forall k :: k in current ==>
          Path(k.0, k.1) in files && files[Path(k.0, k.1)] == File(Regular, 0, current[k]))
    && (forall p :: p in files ==> exists k :: k in current && p == Path(k.0, k.1))
  }

  lemma HeldFile(files: map<string, File>, current: map<Key, nat>, key: Key)
    requires Holds(files, current) && ':' !in key.0
    ensures Path(key.0, key.1) in files <==> key in current
    ensures key in current ==> files[Path(key.0, key.1)] == File(Regular, 0, current[key])
  {
    var path := Path(key.0, key.1);
    if path in files {
      var k :| k in current && path == Path(k.0, k.1);
      PathInjective(key.0, key.1, k.0, k.1);
      assert k == key;
    }
  }

  lemma HoldsAfterUpdate(files: map<string, File>, current: map<Key, nat>, key: Key, now: nat)
    requires Holds(files, current) && ':' !in key.0
    ensures Holds(files[Path(key.0, key.1) := File(Regular, 0, now)], current[key := now])
  {
    hide Path;
    var path, cur := Path(key.0, key.1), current[key := now];
    var fs := files[path := File(Regular, 0, now)];
    forall k | k in cur ensures Path(k.0, k.1) in fs && fs[Path(k.0, k.1)] == File(Regular, 0, cur[k]) {
      if k != key { PathInjective(key.0, key.1, k.0, k.1); }
    }
    forall p | p in fs ensures exists k :: k in cur && p == Path(k.0, k.1) {
      if p == path {
        assert key in cur;
      } else {
        var k :| k in current && p == Path(k.0, k.1);
        assert k in cur;
      }
    }
  }

  lemma HoldsAfterInvalidate(files: map<string, File>, current: map<Key, nat>, key: Key)
    requires Holds(files, current) && ':' !in key.0
    ensures Holds(files - {Path(key.0, key.1)}, current - {key})
  {
    hide Path;
    var path := Path(key.0, key.1);
    forall k | k in current && k != key ensures Path(k.0, k.1) != path {
      PathInjective(key.0, key.1, k.0, k.1);
    }
    forall p | p in files && p != path ensures exists k :: k in current - {key} && p == Path(k.0, k.1) {
      var k :| k in current && p == Path(k.0, k.1);
      assert k in current - {key};
    }
  }

  class CredentialCache {
    var dir: Option<DirStat>
    var files: map<string, File>
    var now: nat
    ghost var history: seq<Op>

    ghost predicate Valid()
      reads this
    {
      Ordered(history, now) && Holds(files, Current(history))
    }

    /** An empty cache directory, in whatever state, or none yet. */
    constructor (now: nat, dir: Option<DirStat>)
      ensures Valid() && history == [] && this.now == now && this.dir == dir
    {
      this.dir, files, this.now, history := dir, map[], now, [];
    }

    method Tick(later: nat)
      requires Valid() && now <= later
      modifies this
      ensures Valid() && now == later && history == old(history)
    {
      now := later;
    }

    /** Make a missing directory; an existing one must be a root-owned directory, not a link to one, that
        is not world-writable. */
    method EnsureDir(mkdirOk: bool) returns (code: int)
      modifies `dir
      ensures code == OK <==> dir.Some? && Safe(dir.value)
      ensures old(dir).None? ==> code == (if mkdirOk then OK else ERR_IO)
      ensures old(dir).Some? ==> dir == old(dir)
      ensures code == ERR_SYMLINK <==> old(dir).Some? && dir.value.kind.Symlink?
      ensures code == ERR_OWNER <==> old(dir).Some? && dir.value.kind.Directory? && dir.value.uid != 0
      ensures code == ERR_WORLD_WRITABLE <==>
                old(dir).Some? && dir.value.kind.Directory? && dir.value.uid == 0 && dir.value.worldWritable
      ensures code in [OK, ERR_IO, ERR_SYMLINK, ERR_OWNER, ERR_WORLD_WRITABLE]
    {
      if dir.None? {
        if !mkdirOk { return ERR_IO; }
        dir := Some(DirStat(Directory, 0, false));
        return OK;
      }
      if dir.value.kind.Symlink? { return ERR_SYMLINK; }
      if !dir.value.kind.Directory? { return ERR_IO; }
      if dir.value.uid != 0 { return ERR_OWNER; }
      if dir.value.worldWritable { return ERR_WORLD_WRITABLE; }
      code := OK;
    }

    /** Record that `user` authenticated on the session of `link`.  A link in the place of the file is
        refused, whoever put it there. */
    method Update(user: string, link: string, mkdirOk: bool, openOk: bool) returns (code: int)
      requires NUL !in link
      modifies this
      ensures old(Valid()) && ':' !in user ==> Valid()
      ensures now == old(now)
      ensures history == if code == OK then old(history) + [Updated((user, SessionId(link)), now)] else old(history)
      ensures old(Valid()) && ':' !in user && UserOk(user) && Usable(old(dir)) && mkdirOk && openOk ==> code == OK
      ensures code == OK ==> dir.Some? && Safe(dir.value)
      ensures var path := Path(user, SessionId(link));
              && (code != OK ==> files == old(files))
              && (code == OK ==> path in files && files == old(files)[path := files[path]]
                                 && files[path].kind.Regular? && files[path].mtime == now)
              && (path in old(files) && old(files)[path].kind.Symlink? ==> code != OK)
    {
      hide Path, SessionId, Ordered, Holds;
      code := ValidateUsername(user);
      if code != OK { return; }
      code := EnsureDir(mkdirOk);
      if code != OK { return; }
      var session := TtySession(link);
      var path := TimestampPath(user, session);
      ghost var key := (user, session);
      if Valid() && ':' !in user {
        HeldFile(files, Current(history), key);
        HoldsAfterUpdate(files, Current(history), key, now);
        OrderedSnoc(history, Updated(key, now), now);
      }
      if path in files && files[path].kind.Symlink? { return ERR_SYMLINK; }
      if !openOk { return ERR_IO; }
      var owner := if path in files then files[path].uid else 0;
      assert (history + [Updated(key, now)])[..|history|] == history;
      files := files[path := File(Regular, owner, now)];
      history := history + [Updated(key, now)];
      code := OK;
    }

    /** Forget the credential of `user` on this session; an absent file is success, and a link in its place
        is refused. */
    method Invalidate(user: string, link: string, unlinkOk: bool) returns (code: int)
      requires NUL !in link
      modifies this
      ensures old(Valid()) && ':' !in user ==> Valid()
      ensures now == old(now)
      ensures history == if code == OK then old(history) + [Invalidated((user, SessionId(link)))] else old(history)
      ensures old(Valid()) && ':' !in user && UserOk(user) && unlinkOk ==> code == OK
      ensures var path := Path(user, SessionId(link));
              && files == (if code == OK then old(files) - {path} else old(files))
              && (path in old(files) && old(files)[path].kind.Symlink? ==> code != OK)
    {
      hide Path, SessionId, Ordered, Holds;
      code := ValidateUsername(user);
      if code != OK { return; }
      var session := TtySession(link);
      var path := TimestampPath(user, session);
      ghost var key := (user, session);
      if Valid() && ':' !in user {
        HeldFile(files, Current(history), key);
        HoldsAfterInvalidate(files, Current(history), key);
        OrderedSnoc(history, Invalidated(key), now);
      }
      if path in files {
        if files[path].kind.Symlink? { return ERR_SYMLINK; }
        if !unlinkOk { return ERR_IO; }
        files := files - {path};
      } else {
        assert files - {path} == files;
      }
      assert (history + [Invalidated(key)])[..|history|] == history;
      history := history + [Invalidated(key)];
      code := OK;
    }

    /** THE REFINEMENT.  After any interleaving of the operations, by any users on any sessions, the
        check succeeds exactly when this user was updated on this session less than `ttl` seconds
        ago with no later invalidation.  A clock that cannot be read, or reads zero, fails it.  Whatever
        else may lie in the directory, only a root-owned regular file counts. */
    method Check(user: string, link: string, ttl: nat, clockOk: bool) returns (valid: bool)
      requires NUL !in link
      ensures Valid() && ':' !in user ==>
                (valid <==> clockOk && now != 0 && Fresh(history, (user, SessionId(link)), ttl, now))
      ensures var path := Path(user, SessionId(link));
              valid <==>
                && path in files && files[path].kind.Regular? && files[path].uid == 0
                && clockOk && now != 0 && now - files[path].mtime < ttl
    {
      var session := TtySession(link);
      var path := TimestampPath(user, session);
      if Valid() && ':' !in user {
        HeldFile(files, Current(history), (user, session));
        CurrentIsFresh(history, (user, session), ttl, now);
      }
      if path !in files { return false; }
      var f := files[path];
      if f.kind.Symlink? { return false; }
      if !f.kind.Regular? { return false; }
      if f.uid != 0 { return false; }
      var reading := if clockOk then now else 0;
      if reading == 0 { return false; }
      valid := f.mtime + ttl > reading;
    }
  }
}
