/** The environment handed to the target: how the caller's is read, split and filtered, and why no
    caller entry can shadow a fixed one. */
module Environment {
  import opened Text

  // ---- Reading ---------------------------------------------------------------------------

  /** A file read piece by piece.  The sizes script the result of each read; a size that is not
      positive is a failed read, and when the script runs out reads return all they can. */
  class Stream {
    var rest: string
    var sizes: seq<int>

    constructor (content: string, sizes: seq<int>)
      ensures rest == content && this.sizes == sizes
    {
      rest, this.sizes := content, sizes;
    }

    method Read(buf: array<char>, off: nat, max: nat) returns (got: int)
      requires 0 < max && off + max <= buf.Length
      modifies this, buf
      ensures got <= max
      ensures got > 0 ==> got <= |old(rest)| && rest == old(rest)[got..]
      ensures got > 0 ==> buf[..off + got] == old(buf[..off]) + old(rest)[..got]
      ensures got <= 0 ==> rest == old(rest) && buf[..] == old(buf[..])
      ensures NoReadError(old(sizes)) ==> NoReadError(sizes) && (got <= 0 ==> rest == "")
    {
      assert sizes != [] ==> sizes[0] in sizes && forall x :: x in sizes[1..] ==> x in sizes;
      var size: int := max;
      if sizes != [] { size, sizes := sizes[0], sizes[1..]; }
      if size <= 0 { return size; }
      got := size;
      if got > max { got := max; }
      if got > |rest| { got := |rest|; }
      forall i | 0 <= i < got { buf[off + i] := rest[i]; }
      rest := rest[got..];
    }
  }

  predicate NoReadError(sizes: seq<int>) { forall s :: s in sizes ==> s > 0 }

  /** A larger buffer that starts with what the old one holds. */
  method Grown(buf: array<char>, newCap: nat) returns (newBuf: array<char>)
    requires buf.Length <= newCap
    ensures fresh(newBuf) && newBuf.Length == newCap && newBuf[..buf.Length] == buf[..]
  {
    newBuf := new char[newCap];
    forall i | 0 <= i < buf.Length { newBuf[i] := buf[i]; }
  }

  /** Read everything through a buffer that doubles whenever it is full.  What is returned is what
      was delivered, however it was cut into pieces. */
  method ReadEnviron(f: Stream) returns (content: string)
    modifies f
    ensures content + f.rest == old(f.rest)
    ensures NoReadError(old(f.sizes)) ==> f.rest == ""
  {
    var cap := 16384;
    var buf := new char[cap];
    var total := 0;
    var reading := true;
    while reading
      invariant 0 <= total < cap == buf.Length && fresh(buf)
      invariant buf[..total] + f.rest == old(f.rest)
      invariant NoReadError(old(f.sizes)) ==> NoReadError(f.sizes)
      invariant NoReadError(old(f.sizes)) && !reading ==> f.rest == ""
      decreases reading, |f.rest|
    {
      ghost var had, rest0 := buf[..total], f.rest;
      var got := f.Read(buf, total, cap - total);
      if got <= 0 {
        assert buf[..total] == buf[..][..total];
        reading := false;
      } else {
        assert had + rest0[..got] + rest0[got..] == had + rest0;
        total := total + got;
        if total >= cap {
          cap := cap * 2;
          buf := Grown(buf, cap);
        }
      }
    }
    content := buf[..total];
  }

  /** The NUL-separated entries; empty ones are dropped. */
  function Entries(s: string): seq<string>
    decreases |s|
  {
    if s == "" then []
    else
      var k := Find(s, NUL);
      (if k > 0 then [s[..k]] else []) + Entries(Drop(s, k + 1))
  }

  lemma EntriesStep(s: string)
    requires s != ""
    ensures var k := Find(s, NUL);
            Entries(s) == (if k > 0 then [s[..k]] else []) + Entries(Drop(s, k + 1))
  {
  }

  method ParseEnviron(buf: string) returns (v: seq<string>)
    ensures v == Entries(buf)
  {
    hide Find, Entries;
    v := [];
    var pos := 0;
    assert buf[0..] == buf;
    while pos < |buf|
      invariant pos <= |buf|
      invariant v + Entries(buf[pos..]) == Entries(buf)
    {
      SuffixAll(buf, pos);
      var end := FindByte(buf, pos, |buf|, NUL);
      SuffixHead(buf, pos, end - pos);
      EntriesStep(buf[pos..]);
      var next := if end < |buf| then end + 1 else |buf|;
      assert Drop(buf[pos..], end - pos + 1) == buf[next..];
      if end - pos > 0 { v := v + [buf[pos..end]]; }
      pos := next;
    }
    NoEntries();
    assert buf[pos..] == "" && v + [] == v;
  }

  lemma NoEntries()
    ensures Entries("") == []
  {
  }

  // ---- Filtering -------------------------------------------------------------------------

  const UNSAFE_VARS := {
    "LD_PRELOAD", "LD_LIBRARY_PATH", "LD_AUDIT", "LD_DYNAMIC_WEAK", "LD_BIND_NOW", "LD_AOUT_LIBRARY_PATH",
    "LD_AOUT_PRELOAD", "LD_ORIGIN_PATH", "LD_DEBUG", "LD_DEBUG_OUTPUT", "LD_PROFILE", "LD_PROFILE_OUTPUT",
    "LD_SHOW_AUXV", "LD_USE_LOAD_BIAS", "LD_HWCAP_MASK", "LD_TRACE_LOADED_OBJECTS", "LD_WARN",
    "LD_VERBOSE", "LD_TRACE_PRELINKING", "LOCALDOMAIN", "RES_OPTIONS", "HOSTALIASES", "NLSPATH",
    "PATH_LOCALE", "GCONV_PATH", "IFS", "ENV", "BASH_ENV", "CDPATH", "GLOBIGNORE", "SHELLOPTS", "BASHOPTS",
    "PS4", "PROMPT_COMMAND", "INPUTRC", "PYTHONPATH", "PYTHONSTARTUP", "PYTHONHOME", "PERL5LIB",
    "PERL5OPT", "PERLLIB", "PERL_MM_OPT", "RUBYLIB", "RUBYOPT", "GEM_HOME", "GEM_PATH", "BUNDLE_GEMFILE",
    "NODE_PATH", "NODE_OPTIONS", "CLASSPATH", "JAVA_TOOL_OPTIONS", "LUA_PATH", "LUA_CPATH", "PHPRC"
  }

  const SAFE_VARS := {
    "TERM", "COLORTERM", "LANG", "LANGUAGE", "LC_ALL", "LC_CTYPE", "TZ", "DISPLAY", "XAUTHORITY"
  }

  predicate IsUnsafe(name: string) {
    "LD_" <= name || "BASH_FUNC_" <= name || name in UNSAFE_VARS
  }

  predicate IsSafe(name: string) { name in SAFE_VARS }

  /** The original's list, apart from the linker's variables, all of which start with `LD_`. */
  const ORIGINAL_UNSAFE := {
    "LOCALDOMAIN", "RES_OPTIONS", "HOSTALIASES", "NLSPATH", "PATH_LOCALE", "GCONV_PATH", "IFS", "ENV",
    "BASH_ENV", "CDPATH", "GLOBIGNORE", "SHELLOPTS", "BASHOPTS", "PS4", "PROMPT_COMMAND", "INPUTRC",
    "PYTHONPATH", "PYTHONSTARTUP", "PYTHONHOME", "PERL5LIB", "PERL5OPT", "PERLLIB", "PERL_MM_OPT", "RUBYLIB",
    "RUBYOPT", "GEM_HOME", "GEM_PATH", "BUNDLE_GEMFILE", "NODE_PATH", "NODE_OPTIONS", "CLASSPATH",
    "JAVA_TOOL_OPTIONS", "LUA_PATH", "LUA_CPATH", "PHPRC"
  }

  /** The port keeps out what the original does, every variable of the linker, and exported shell
      functions; it lets pass by default what the original does. */
  lemma FiltersLikeOriginal(name: string)
    ensures IsUnsafe(name) <==> "LD_" <= name || "BASH_FUNC_" <= name || name in ORIGINAL_UNSAFE
    ensures IsSafe(name) <==>
              name in {"TERM", "COLORTERM", "LANG", "LANGUAGE", "LC_ALL",
                       "LC_CTYPE", "TZ", "DISPLAY", "XAUTHORITY"}
  {
    LinkerNames(name);
  }

  const LINKER_VARS := {
    "LD_PRELOAD", "LD_LIBRARY_PATH", "LD_AUDIT", "LD_DYNAMIC_WEAK", "LD_BIND_NOW", "LD_AOUT_LIBRARY_PATH",
    "LD_AOUT_PRELOAD", "LD_ORIGIN_PATH", "LD_DEBUG", "LD_DEBUG_OUTPUT", "LD_PROFILE", "LD_PROFILE_OUTPUT",
    "LD_SHOW_AUXV", "LD_USE_LOAD_BIAS", "LD_HWCAP_MASK", "LD_TRACE_LOADED_OBJECTS", "LD_WARN", "LD_VERBOSE",
    "LD_TRACE_PRELINKING"
  }

  lemma LinkerNames(name: string)
    ensures name in UNSAFE_VARS ==> "LD_" <= name || name in ORIGINAL_UNSAFE
    ensures name in ORIGINAL_UNSAFE ==> name in UNSAFE_VARS
  {
    assert name in UNSAFE_VARS ==> name in LINKER_VARS || name in ORIGINAL_UNSAFE;
    if name in LINKER_VARS { LinkerStarts(name); }
  }

  lemma LinkerStarts(name: string)
    requires name in LINKER_VARS
    ensures "LD_" <= name
  {
    assert |name| >= 3 && name[0] == 'L' && name[1] == 'D' && name[2] == '_';
    assert name[..3] == "LD_";
  }

  /** The key of a `KEY=VAL` entry; none when there is no `=`. */
  function EnvKey(entry: string): Option<string> {
    var k := Find(entry, '=');
    if k < |entry| then Some(entry[..k]) else None
  }

  predicate PassesThrough(entry: string, keep: seq<string>) {
    var key := EnvKey(entry);
    key.Some? && !IsUnsafe(key.value) && (IsSafe(key.value) || key.value in keep)
  }

  /** The entries that pass, in their order. */
  function Kept(entries: seq<string>, keep: seq<string>): seq<string> {
    if entries == [] then []
    else (if PassesThrough(entries[0], keep) then [entries[0]] else []) + Kept(entries[1..], keep)
  }

  function Pair(key: string, val: string): string { key + "=" + val }

  datatype Caller = Caller(user: string, uid: nat, gid: nat)
  datatype Target = Target(user: string, home: string, shell: string)

  const SECURE_PATH := "/usr/local/sbin:/usr/local/bin:/usr/sbin:/usr/bin:/sbin:/bin"

  const FIXED_KEYS := ["USER", "LOGNAME", "HOME", "SHELL", "PATH", "SUDO_USER", "SUDO_UID", "SUDO_GID"]

  function FixedValues(c: Caller, t: Target): seq<string> {
    [t.user, t.user, t.home, t.shell, SECURE_PATH, c.user, Dec(c.uid), Dec(c.gid)]
  }

  function Fixed(c: Caller, t: Target): seq<string> {
    seq(8, i requires 0 <= i < 8 => Pair(FIXED_KEYS[i], FixedValues(c, t)[i]))
  }

  method InKeep(name: string, keep: seq<string>) returns (found: bool)
    ensures found <==> name in keep
  {
    var i := 0;
    while i < |keep|
      invariant 0 <= i <= |keep| && name !in keep[..i]
    {
      if name == keep[i] { return true; }
      i := i + 1;
    }
    found := false;
  }

  method FixedEntries(c: Caller, t: Target) returns (out: seq<string>)
    ensures out == Fixed(c, t)
  {
    hide Dec, Pair;
    out := [];
    out := out + [Pair("USER", t.user)];
    out := out + [Pair("LOGNAME", t.user)];
    out := out + [Pair("HOME", t.home)];
    out := out + [Pair("SHELL", t.shell)];
    out := out + [Pair("PATH", SECURE_PATH)];
    out := out + [Pair("SUDO_USER", c.user)];
    out := out + [Pair("SUDO_UID", Dec(c.uid))];
    out := out + [Pair("SUDO_GID", Dec(c.gid))];
  }

  /** The sanitized environment: eight fixed entries, then the entries that pass among those read.
      Without a read error everything is read. */
  method SanitizeEnvironment(f: Stream, keep: seq<string>, c: Caller, t: Target) returns (out: seq<string>)
    modifies f
    ensures |f.rest| <= |old(f.rest)| && (NoReadError(old(f.sizes)) ==> f.rest == "")
    ensures var content := old(f.rest)[..|old(f.rest)| - |f.rest|];
            out == Fixed(c, t) + Kept(Entries(content), keep)
  {
    hide IsUnsafe, IsSafe, Fixed, Kept, Entries;
    ghost var all := f.rest;
    out := FixedEntries(c, t);
    var content := ReadEnviron(f);
    ghost var left := f.rest;
    assert content == all[..|all| - |left|];
    var cur := ParseEnviron(content);
    var i := 0;
    NothingKept(keep);
    assert cur[..0] == [] && Fixed(c, t) + [] == Fixed(c, t);
    while i < |cur|
      invariant 0 <= i <= |cur| && f.rest == left
      invariant out == Fixed(c, t) + Kept(cur[..i], keep)
    {
      var entry := cur[i];
      KeptSnoc(cur, i, keep);
      var key := EnvKey(entry);
      if key.Some? && !IsUnsafe(key.value) {
        var kept := InKeep(key.value, keep);
        if IsSafe(key.value) || kept { out := out + [entry]; }
      }
      i := i + 1;
    }
    assert cur[..i] == cur;
  }

  lemma NothingKept(keep: seq<string>)
    ensures Kept([], keep) == []
  {
  }

  lemma KeptSnoc(cur: seq<string>, i: nat, keep: seq<string>)
    requires i < |cur|
    ensures Kept(cur[..i + 1], keep) ==
              Kept(cur[..i], keep) + if PassesThrough(cur[i], keep) then [cur[i]] else []
  {
    hide PassesThrough;
    assert cur[..i + 1] == cur[..i] + [cur[i]];
    KeptInOrder(cur[..i], [cur[i]], keep);
  }

  // ---- What the target sees --------------------------------------------------------------

  /** First-occurrence lookup, as getenv does. */
  function Lookup(env: seq<string>, key: string): Option<string> {
    if env == [] then None
    else if EnvKey(env[0]) == Some(key) then Some(env[0][|key| + 1..])
    else Lookup(env[1..], key)
  }

  lemma PairKey(key: string, val: string)
    requires '=' !in key
    ensures EnvKey(Pair(key, val)) == Some(key) && Pair(key, val)[|key| + 1..] == val
  {
    var e := Pair(key, val);
    assert e == key + ("=" + val);
    FindFirst(key, '=', |key|);
    FindInPrefix(key, "=" + val, '=');
    FindFirst("=" + val, '=', 0);
    assert e[..|key|] == key;
  }

  lemma FixedKeysDiffer(i: nat, j: nat)
    requires i < j < 8
    ensures FIXED_KEYS[i] != FIXED_KEYS[j]
  {
    assert "USER"[0] != "HOME"[0] && "USER"[0] != "PATH"[0] && "HOME"[0] != "PATH"[0];
    assert "SUDO_UID"[5] != "SUDO_GID"[5];
  }

  lemma FixedKeyPlain(i: nat)
    requires i < 8
    ensures '=' !in FIXED_KEYS[i]
  {
  }

  lemma {:induction false} LookupAt(env: seq<string>, key: string, i: nat)
    requires i < |env| && EnvKey(env[i]) == Some(key)
    requires forall j :: 0 <= j < i ==> EnvKey(env[j]) != Some(key)
    ensures Lookup(env, key) == Some(env[i][|key| + 1..])
  {
    hide EnvKey;
    if i > 0 {
      assert forall j :: 0 <= j < i - 1 ==> env[1..][j] == env[j + 1];
      LookupAt(env[1..], key, i - 1);
    }
  }

  /** Whatever the caller exports and whatever the policy keeps, the target finds the fixed value of
      each of the eight fixed variables. */
  lemma FixedValuesWin(c: Caller, t: Target, passed: seq<string>, i: nat)
    requires i < 8
    ensures Lookup(Fixed(c, t) + passed, FIXED_KEYS[i]) == Some(FixedValues(c, t)[i])
  {
    hide EnvKey, FixedValues, Pair, Lookup;
    var env := Fixed(c, t) + passed;
    assert |FixedValues(c, t)| == 8 by { FixedLength(c, t); }
    forall j | 0 <= j <= i ensures EnvKey(env[j]) == Some(FIXED_KEYS[j]) {
      FixedKeyPlain(j);
      PairKey(FIXED_KEYS[j], FixedValues(c, t)[j]);
    }
    forall j | 0 <= j < i ensures EnvKey(env[j]) != Some(FIXED_KEYS[i]) { FixedKeysDiffer(j, i); }
    LookupAt(env, FIXED_KEYS[i], i);
    FixedKeyPlain(i);
    PairKey(FIXED_KEYS[i], FixedValues(c, t)[i]);
  }

  /** The fixed values by name: the target's identity and home, the secure path, and who called. */
  lemma TargetSees(c: Caller, t: Target, passed: seq<string>)
    ensures var env := Fixed(c, t) + passed;
            && Lookup(env, "USER") == Some(t.user) && Lookup(env, "LOGNAME") == Some(t.user)
            && Lookup(env, "HOME") == Some(t.home) && Lookup(env, "SHELL") == Some(t.shell)
            && Lookup(env, "PATH") == Some("/usr/local/sbin:/usr/local/bin:/usr/sbin:/usr/bin:/sbin:/bin")
            && Lookup(env, "SUDO_USER") == Some(c.user)
            && Lookup(env, "SUDO_UID") == Some(Dec(c.uid)) && Lookup(env, "SUDO_GID") == Some(Dec(c.gid))
  {
    hide Lookup, Dec, Fixed;
    forall i: nat | i < 8 ensures Lookup(Fixed(c, t) + passed, FIXED_KEYS[i]) == Some(FixedValues(c, t)[i]) {
      FixedValuesWin(c, t, passed, i);
    }
    assert FIXED_KEYS[0] == "USER" && FIXED_KEYS[1] == "LOGNAME" && FIXED_KEYS[2] == "HOME";
    assert FIXED_KEYS[3] == "SHELL" && FIXED_KEYS[4] == "PATH" && FIXED_KEYS[5] == "SUDO_USER";
    assert FIXED_KEYS[6] == "SUDO_UID" && FIXED_KEYS[7] == "SUDO_GID";
  }

  lemma FixedLength(c: Caller, t: Target)
    ensures |FixedValues(c, t)| == 8
  {
  }

  /** What passes is exactly the caller's entries with a key that is not unsafe and is safe or kept:
      never an unsafe key, even one the policy tries to keep, and never an entry without a key. */
  lemma {:induction false} KeptExactly(entries: seq<string>, keep: seq<string>, e: string)
    ensures e in Kept(entries, keep) <==>
              && e in entries
              && exists key, val :: '=' !in key && e == key + "=" + val
                                    && !IsUnsafe(key) && (IsSafe(key) || key in keep)
  {
    KeyExactly(e);
    hide PassesThrough, EnvKey, IsUnsafe, IsSafe;
    PassesExactly(e, keep);
    if entries != [] {
      KeptExactly(entries[1..], keep, e);
      PassesExactly(entries[0], keep);
      KeyExactly(entries[0]);
    }
  }

  lemma PassesExactly(e: string, keep: seq<string>)
    ensures PassesThrough(e, keep) <==>
              exists key, val :: '=' !in key && e == key + "=" + val
                                 && !IsUnsafe(key) && (IsSafe(key) || key in keep)
  {
    hide EnvKey, IsUnsafe, IsSafe;
    KeyExactly(e);
    if PassesThrough(e, keep) {
      var key := EnvKey(e).value;
      assert e == key + "=" + e[|key| + 1..];
    }
    if key, val :| '=' !in key && e == key + "=" + val && !IsUnsafe(key) && (IsSafe(key) || key in keep) {
      assert EnvKey(e) == Some(key);
    }
  }

  /** The key is what precedes the first `=`. */
  lemma KeyExactly(e: string)
    ensures EnvKey(e).Some? ==>
              var key := EnvKey(e).value;
              '=' !in key && |key| < |e| && e == key + "=" + e[|key| + 1..]
    ensures forall key, val :: '=' !in key && e == key + "=" + val ==> EnvKey(e) == Some(key)
  {
    FindMeets(e, '=');
    forall key, val | '=' !in key && e == key + "=" + val ensures EnvKey(e) == Some(key) {
      PairKey(key, val);
      assert Pair(key, val) == e;
    }
  }

  /** The filter is a sublist: it keeps order and multiplicity, and filters each part on its own. */
  lemma {:induction false} KeptInOrder(a: seq<string>, b: seq<string>, keep: seq<string>)
    ensures Kept(a + b, keep) == Kept(a, keep) + Kept(b, keep)
  {
    hide PassesThrough;
    if a == [] {
      assert a + b == b;
    } else {
      assert (a + b)[1..] == a[1..] + b;
      KeptInOrder(a[1..], b, keep);
    }
  }

  // ---- Splitting -------------------------------------------------------------------------

  function JoinNul(entries: seq<string>): string {
    if entries == [] then "" else entries[0] + ([NUL] + JoinNul(entries[1..]))
  }

  function NonEmpty(entries: seq<string>): seq<string> {
    if entries == [] then []
    else (if entries[0] != "" then [entries[0]] else []) + NonEmpty(entries[1..])
  }

  /** Splitting undoes the kernel's encoding of an environment, whether or not a NUL follows the last
      entry; entries that are empty are dropped, and nothing else is. */
  lemma {:induction false} EntriesReadBack(entries: seq<string>, last: string)
    requires (forall e :: e in entries ==> NUL !in e) && NUL !in last
    ensures Entries(JoinNul(entries) + last) == NonEmpty(entries + [last])
  {
    hide Find, Entries, Drop;
    if entries == [] {
      assert JoinNul(entries) + last == last && ([] + [last])[1..] == [];
      OnlyEntry(last);
    } else {
      var e, rest := entries[0], JoinNul(entries[1..]) + last;
      var s := e + ([NUL] + rest);
      assert JoinNul(entries) + last == s;
      assert e in entries;
      FindFirst(e, NUL, |e|);
      FindInPrefix(e, [NUL] + rest, NUL);
      FindFirst([NUL] + rest, NUL, 0);
      assert s[..|e|] == e;
      assert e + [NUL] + rest == s;
      DropAppend(e + [NUL], rest);
      EntriesStep(s);
      assert forall x :: x in entries[1..] ==> x in entries;
      assert (entries + [last])[1..] == entries[1..] + [last];
      EntriesReadBack(entries[1..], last);
    }
  }

  lemma OnlyEntry(e: string)
    requires NUL !in e
    ensures Entries(e) == NonEmpty([e])
  {
    assert [e][1..] == [];
    if e != "" {
      FindFirst(e, NUL, |e|);
      EntriesStep(e);
      assert e[..|e|] == e;
      assert Drop(e, |e| + 1) == "";
      NoEntries();
    }
  }
}
