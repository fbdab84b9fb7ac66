/** Command patterns: the byte-scanning matcher, the relation it decides, and its agreement with the
    path-based matcher it was ported from. */
module Matcher {
  import opened Text

  // ---- The relation ----------------------------------------------------------------------

  predicate EndsWith(s: string, t: string): (r: bool)
    ensures r ==> |s| >= |t|
  {
    |s| >= |t| && s[|s| - |t|..] == t
  }

  /** The binary portion of a command: everything before its first space. */
  function Binary(command: string): string {
    command[..Find(command, ' ')]
  }

  predicate SlashFree(s: string) { '/' !in s }

  /** `binary` lies directly in directory `d`. */
  ghost predicate DirectlyIn(binary: string, d: string) {
    exists name :: SlashFree(name) && binary == d + "/" + name
  }

  /** `name` is what follows the last slash of `binary`. */
  ghost predicate HasBasename(binary: string, name: string) {
    SlashFree(name) && exists d :: binary == d + name && (d == "" || EndsWith(d, "/"))
  }

  /** Which commands a pattern matches. */
  ghost predicate Matches(command: string, pattern: string) {
    || pattern == "ALL"
    || pattern == "*"
    || command == pattern
    || (if EndsWith(pattern, " *") then
          var p := pattern[..|pattern| - 2];
          command == p || p + " " <= command
        else if EndsWith(pattern, "/*") then
          DirectlyIn(Binary(command), pattern[..|pattern| - 2])
        else
          HasBasename(Binary(command), pattern))
  }

  // ---- The matcher -----------------------------------------------------------------------

  function LastSlash(s: string): (r: int)
    ensures -1 <= r < |s|
    ensures r >= 0 ==> s[r] == '/'
    ensures forall i :: r < i < |s| ==> s[i] != '/'
  {
    if s == [] then -1 else if s[|s| - 1] == '/' then |s| - 1 else LastSlash(s[..|s| - 1])
  }

  lemma LastSlashAt(d: string, name: string)
    requires SlashFree(name)
    ensures LastSlash(d + "/" + name) == |d|
  {
    var s := d + "/" + name;
    assert s[|d|] == '/';
    assert forall i :: |d| < i < |s| ==> s[i] == name[i - |d| - 1];
  }

  lemma DirectlyInByLastSlash(b: string, d: string)
    ensures DirectlyIn(b, d) <==> LastSlash(b) == |d| && b[..|d|] == d
  {
    if DirectlyIn(b, d) {
      var name :| SlashFree(name) && b == d + "/" + name;
      LastSlashAt(d, name);
    }
    if LastSlash(b) == |d| && b[..|d|] == d {
      var name := b[|d| + 1..];
      assert b == d + "/" + name;
      assert SlashFree(name);
    }
  }

  lemma BasenameAfterSlash(d: string, name: string)
    requires SlashFree(name) && (d == "" || EndsWith(d, "/"))
    ensures LastSlash(d + name) == |d| - 1
  {
    if d == "" {
      assert d + name == name;
    } else {
      var init := d[..|d| - 1];
      assert d + name == init + "/" + name;
      LastSlashAt(init, name);
    }
  }

  /** A string split behind its last slash. */
  lemma SplitAtSlash(b: string)
    ensures var d := b[..LastSlash(b) + 1];
            b == d + b[LastSlash(b) + 1..] && (d == "" || EndsWith(d, "/"))
  {
    var d := b[..LastSlash(b) + 1];
    if d != "" { assert d[|d| - 1..] == "/"; }
  }

  lemma BasenameByLastSlash(b: string, name: string)
    ensures HasBasename(b, name) <==> SlashFree(name) && b[LastSlash(b) + 1..] == name
  {
    hide LastSlash, EndsWith, SlashFree;
    SplitAtSlash(b);
    if HasBasename(b, name) {
      var d :| b == d + name && (d == "" || EndsWith(d, "/"));
      BasenameAfterSlash(d, name);
      assert b[|d|..] == name;
    }
  }

  method FindLastSlash(command: string, binEnd: nat) returns (last: int)
    requires binEnd <= |command|
    ensures last == LastSlash(command[..binEnd])
  {
    last := -1;
    var j := 0;
    while j < binEnd
      invariant 0 <= j <= binEnd
      invariant -1 <= last < j && (last >= 0 ==> command[last] == '/')
      invariant forall i :: last < i < j ==> command[i] != '/'
    {
      if command[j] == '/' { last := j; }
      j := j + 1;
    }
  }

  method BinaryEnd(command: string) returns (binEnd: nat)
    ensures binEnd == Find(command, ' ')
  {
    binEnd := |command|;
    var k := 0;
    while k < |command|
      invariant 0 <= k <= |command|
      invariant k < |command| ==> binEnd == |command| && Find(command, ' ') == k + Find(command[k..], ' ')
      invariant k == |command| ==> binEnd == Find(command, ' ')
    {
      assert command[k..][1..] == command[k + 1..];
      if command[k] == ' ' { binEnd := k; k := |command|; }
      else { k := k + 1; }
    }
  }

  /** `P *`: the command is `P`, or continues it after a space. */
  method MatchesPrefix(command: string, pattern: string) returns (r: bool)
    requires EndsWith(pattern, " *")
    ensures var p := pattern[..|pattern| - 2];
            r <==> command == p || p + " " <= command
  {
    var cmdLen, prefixLen := |command|, |pattern| - 2;
    ghost var p := pattern[..prefixLen];
    if cmdLen == prefixLen && command == pattern[..prefixLen] { return true; }
    if cmdLen > prefixLen && command[prefixLen] == ' ' && command[..prefixLen] == pattern[..prefixLen] {
      assert p + " " <= command;
      return true;
    }
    r := false;
  }

  /** A directory glob against the binary that ends at `binEnd`. */
  method MatchesDirectory(command: string, binEnd: nat, pattern: string) returns (r: bool)
    requires binEnd <= |command| && EndsWith(pattern, "/*")
    ensures r <==> DirectlyIn(command[..binEnd], pattern[..|pattern| - 2])
  {
    hide LastSlash, DirectlyIn;
    var dirLen := |pattern| - 2;
    ghost var b, d := command[..binEnd], pattern[..dirLen];
    DirectlyInByLastSlash(b, d);
    var lastSlash := FindLastSlash(command, binEnd);
    if lastSlash < 0 { return false; }
    if dirLen == 0 {
      assert b[..0] == d;
      return lastSlash == 0;
    }
    if lastSlash != dirLen { return false; }
    assert b[..dirLen] == command[..dirLen];
    r := command[..dirLen] == pattern[..dirLen];
  }

  method MatchesBasename(command: string, binEnd: nat, pattern: string) returns (r: bool)
    requires binEnd <= |command|
    ensures r <==> HasBasename(command[..binEnd], pattern)
  {
    hide LastSlash, HasBasename;
    ghost var b := command[..binEnd];
    BasenameByLastSlash(b, pattern);
    if '/' in pattern { return false; }
    var last := FindLastSlash(command, binEnd);
    var baseStart := last + 1;
    assert b[baseStart..] == command[baseStart..binEnd];
    if binEnd - baseStart != |pattern| { return false; }
    r := command[baseStart..binEnd] == pattern;
  }

  predicate EndsInStar(pattern: string, before: char) {
    |pattern| >= 2 && pattern[|pattern| - 2] == before && pattern[|pattern| - 1] == '*'
  }

  lemma EndsInStarIs(pattern: string, before: char)
    ensures EndsInStar(pattern, before) <==> EndsWith(pattern, [before, '*'])
  {
  }

  method CommandMatches(command: string, pattern: string) returns (r: bool)
    ensures r <==> Matches(command, pattern)
  {
    hide DirectlyIn, HasBasename, EndsWith, EndsInStar, Find;
    EndsInStarIs(pattern, ' ');
    EndsInStarIs(pattern, '/');
    assert [' ', '*'] == " *" && ['/', '*'] == "/*";
    if pattern == "ALL" || pattern == "*" { return true; }
    if |command| == |pattern| && command == pattern { return true; }
    if EndsInStar(pattern, ' ') {
      // No other kind of pattern is tried once ` *` was seen.
      r := MatchesPrefix(command, pattern);
      return;
    }
    var binEnd := BinaryEnd(command);
    if EndsInStar(pattern, '/') {
      r := MatchesDirectory(command, binEnd, pattern);
      return;
    }
    r := MatchesBasename(command, binEnd, pattern);
  }

  // ---- What the relation promises --------------------------------------------------------

  lemma BinaryOf(b: string, args: string)
    requires ' ' !in b
    ensures Binary(b + " " + args) == b && Binary(b) == b
  {
    assert b + " " + args == b + (" " + args);
    FindFirst(b, ' ', |b|);
    FindInPrefix(b, " " + args, ' ');
    assert Find(" " + args, ' ') == 0 by { FindFirst(" " + args, ' ', 0); }
  }

  /** Directory and basename patterns look at the binary alone: arguments never matter. */
  lemma ArgumentsIgnored(binary: string, args: string, pattern: string)
    requires ' ' !in binary && ' ' !in pattern
    requires EndsWith(pattern, "/*") || SlashFree(pattern)
    ensures Matches(binary + " " + args, pattern) <==> Matches(binary, pattern)
  {
    BinaryOf(binary, args);
    assert (binary + " " + args)[|binary|] == ' ';
    if binary == pattern {
      if EndsWith(pattern, "/*") {
        var d := pattern[..|pattern| - 2];
        assert pattern == d + "/" + "*";
        assert SlashFree("*");
      } else {
        assert binary == "" + pattern;
      }
    }
  }

  /** A trailing ` *` never matches a longer word: `P *` accepts `P` itself and `P ` followed by
      anything, and nothing else but the pattern text. */
  lemma ArgumentWildcardBoundary(prefix: string, command: string)
    requires prefix + " *" != "*"
    ensures Matches(command, prefix + " *") <==>
              command == prefix || exists rest :: command == prefix + " " + rest
  {
    var pattern := prefix + " *";
    assert pattern[|pattern| - 2..] == " *" && pattern[..|pattern| - 2] == prefix;
    assert pattern != "ALL" by { assert pattern[|pattern| - 1] == '*'; }
    if prefix + " " <= command {
      assert command == prefix + " " + command[|prefix| + 1..];
    }
    if command == pattern { assert command == prefix + " " + "*"; }
    if rest :| command == prefix + " " + rest {
      assert prefix + " " <= command;
    }
  }

  /** The patterns that match by themselves. */
  lemma PlainPatterns(command: string)
    ensures Matches(command, "ALL") && Matches(command, "*") && Matches(command, command)
  {
  }

  /** A command by its parts: the directory, the name, and arguments or none. */
  predicate CommandOf(command: string, d: string, name: string) {
    && SlashFree(name) && ' ' !in d && ' ' !in name
    && (command == d + "/" + name || d + "/" + name + " " <= command)
  }

  lemma CommandBinary(command: string, d: string, name: string)
    requires CommandOf(command, d, name)
    ensures Binary(command) == d + "/" + name
  {
    var b := d + "/" + name;
    assert ' ' !in b && b <= command && (|command| > |b| ==> command[|b|] == ' ');
    FindFirst(command, ' ', |b|);
  }

  /** A bare name matches the commands of that name in any directory, with any arguments, and no other. */
  lemma NameMatchesBasename(command: string, d: string, name: string, pattern: string)
    requires CommandOf(command, d, name)
    requires '/' !in pattern && ' ' !in pattern && pattern != "ALL" && pattern != "*"
    ensures Matches(command, pattern) <==> pattern == name
  {
    CommandBinary(command, d, name);
    LastSlashAt(d, name);
    BasenameByLastSlash(d + "/" + name, pattern);
    assert (d + "/" + name)[|d| + 1..] == name;
    hide LastSlash, HasBasename, Binary;
    assert command[|d|] == '/';
    assert ['/', '*'] == "/*" && [' ', '*'] == " *";
    EndsInStarIs(pattern, ' ');
    EndsInStarIs(pattern, '/');
  }

  /** A directory glob matches the commands that lie directly in the directory, with any arguments, and no
      other: not those in directories below it, and not those in directories that its name begins. */
  lemma GlobMatchesDirectory(command: string, d: string, name: string, dir: string)
    requires CommandOf(command, d, name) && ' ' !in dir
    ensures Matches(command, dir + "/*") <==> dir == d
  {
    var x, b := dir + "/*", d + "/" + name;
    CommandBinary(command, d, name);
    LastSlashAt(d, name);
    DirectlyInByLastSlash(b, dir);
    assert b[..|d|] == d;
    assert x[|x| - 1] == '*' && x[|x| - 2] == '/' && x[..|x| - 2] == dir;
    EndsInStarIs(x, '/');
    EndsInStarIs(x, ' ');
    assert ['/', '*'] == "/*" && [' ', '*'] == " *";
    if command == x {
      assert ' ' !in x;
      FindFirst(x, ' ', |x|);
      assert b == x && x == dir + "/" + "*";
      LastSlashAt(dir, "*");
    }
    hide LastSlash, DirectlyIn, Binary, EndsWith;
  }

  // ---- The original, path-based matcher --------------------------------------------------

  datatype Component = Root | Cur | Parent | Normal(name: string)

  function PieceComponents(piece: string): seq<Component> {
    if piece == "" || piece == "." then []
    else if piece == ".." then [Parent]
    else [Normal(piece)]
  }

  /** The components of a path: repeated slashes and inner dots vanish. */
  function Components(path: string): seq<Component> {
    var k := LastSlash(path);
    if k < 0 then if path == "." then [Cur] else PieceComponents(path)
    else if k == 0 then [Root] + PieceComponents(path[1..])
    else Components(path[..k]) + PieceComponents(path[k + 1..])
  }

  function ParentOf(path: string): Option<seq<Component>> {
    var c := Components(path);
    if c == [] || c[|c| - 1].Root? then None else Some(c[..|c| - 1])
  }

  function FileName(path: string): Option<string> {
    var c := Components(path);
    if c != [] && c[|c| - 1].Normal? then Some(c[|c| - 1].name) else None
  }

  predicate RustMatches(command: string, pattern: string) {
    if pattern == "ALL" || pattern == "*" then true
    else if command == pattern then true
    else if EndsWith(pattern, " *") then
      var p := pattern[..|pattern| - 2];
      command == p || (|command| > |p| && command[|p|] == ' ' && p <= command)
    else
      var b := Binary(command);
      if EndsWith(pattern, "/*") && ParentOf(b).Some? then
        var d := pattern[..|pattern| - 2];
        ParentOf(b).value == if d == "" then [Root] else Components(d)
      else if SlashFree(pattern) && FileName(b).Some? then FileName(b).value == pattern
      else false
  }

  predicate NameOk(name: string) {
    name != "" && name != "." && name != ".." && SlashFree(name)
  }

  predicate NamesOk(names: seq<string>) { forall n :: n in names ==> NameOk(n) }

  /** The canonical absolute path through these directories; "" for the root itself. */
  function Join(names: seq<string>): string {
    if names == [] then "" else Join(names[..|names| - 1]) + "/" + names[|names| - 1]
  }

  function Normals(names: seq<string>): seq<Component> {
    seq(|names|, i requires 0 <= i < |names| => Normal(names[i]))
  }

  lemma {:induction false} ComponentsOfJoin(names: seq<string>)
    requires NamesOk(names) && names != []
    ensures Components(Join(names)) == [Root] + Normals(names)
  {
    var init, last := names[..|names| - 1], names[|names| - 1];
    var path := Join(names);
    assert last in names;
    LastSlashAt(Join(init), last);
    assert path[|Join(init)| + 1..] == last && path[..|Join(init)|] == Join(init);
    assert Normals(names) == Normals(init) + [Normal(last)];
    if init != [] {
      assert NamesOk(init);
      ComponentsOfJoin(init);
    }
  }

  /** On canonical absolute binaries, and directory prefixes written canonically, the byte matcher
      and the path matcher it was ported from give the same answer for every pattern. */
  lemma AgreesWithRust(command: string, pattern: string, names: seq<string>, dirs: seq<string>)
    requires names != [] && NamesOk(names) && Binary(command) == Join(names)
    requires NamesOk(dirs)
    requires EndsWith(pattern, "/*") ==> pattern[..|pattern| - 2] == Join(dirs)
    ensures Matches(command, pattern) <==> RustMatches(command, pattern)
  {
    NamesAreSlashFree(names);
    assert names[|names| - 1] in names && forall n :: n in names[..|names| - 1] ==> n in names;
    AlignedAgree(command, names, pattern);
  }

  // ---- Off the canonical paths -----------------------------------------------------------

  predicate Absolute(path: string) { path != "" && path[0] == '/' }

  /** The pieces of an absolute path between its slashes, the empty ones included. */
  function Pieces(path: string): (r: seq<string>)
    requires Absolute(path)
    ensures r != []
  {
    var k := LastSlash(path);
    if k <= 0 then [path[1..]] else Pieces(path[..k]) + [path[k + 1..]]
  }

  predicate AllSlashFree(names: seq<string>) { forall n :: n in names ==> SlashFree(n) }

  lemma {:induction false} PiecesJoin(path: string)
    requires Absolute(path)
    ensures Join(Pieces(path)) == path && AllSlashFree(Pieces(path))
  {
    var k := LastSlash(path);
    if k > 0 {
      PiecesJoin(path[..k]);
      assert path == path[..k] + "/" + path[k + 1..];
      assert Pieces(path)[..|Pieces(path)| - 1] == Pieces(path[..k]);
    } else {
      assert path == "" + "/" + path[1..];
      assert [path[1..]][..0] == [];
    }
  }

  /** Pieces that the path matcher ignores. */
  predicate Vanishes(name: string) { name == "" || name == "." }

  /** The binaries on which the two matchers always agree: the last piece is a name, and among the
      others none vanishes for the path matcher, unless one of them leads upwards. */
  predicate PathsAlign(pieces: seq<string>)
    requires pieces != []
  {
    var inner := pieces[..|pieces| - 1];
    NameOk(pieces[|pieces| - 1]) && (".." in inner || forall n :: n in inner ==> !Vanishes(n))
  }

  function AllComponents(names: seq<string>): seq<Component> {
    if names == [] then [] else AllComponents(names[..|names| - 1]) + PieceComponents(names[|names| - 1])
  }

  lemma ComponentsOfLast(d: string, name: string)
    requires SlashFree(name)
    ensures Components(d + "/" + name) == (if d == "" then [Root] else Components(d)) + PieceComponents(name)
  {
    hide PieceComponents;
    LastSlashAt(d, name);
    var path := d + "/" + name;
    assert path[|d| + 1..] == name && path[..|d|] == d;
  }

  lemma {:induction false} ComponentsOfPieces(names: seq<string>)
    requires AllSlashFree(names) && names != []
    ensures Components(Join(names)) == [Root] + AllComponents(names)
  {
    hide Components, PieceComponents, SlashFree;
    var init, last := names[..|names| - 1], names[|names| - 1];
    assert last in names;
    ComponentsOfLast(Join(init), last);
    var inner, end := AllComponents(init), PieceComponents(last);
    assert AllComponents(names) == inner + end && [Root] + (inner + end) == [Root] + inner + end;
    if init == [] {
      assert AllComponents(init) == [] && Join(init) == "";
    } else {
      ComponentsOfPieces(init);
      assert Join(init) != "" by { assert Join(init) == Join(init[..|init| - 1]) + "/" + init[|init| - 1]; }
    }
  }

  lemma {:induction false} JoinApart(a: seq<string>, b: seq<string>)
    requires AllSlashFree(a) && AllSlashFree(b) && Join(a) == Join(b)
    ensures a == b
  {
    if a != [] && b != [] {
      var i, j := a[..|a| - 1], b[..|b| - 1];
      assert a[|a| - 1] in a && b[|b| - 1] in b;
      LastSlashAt(Join(i), a[|a| - 1]);
      LastSlashAt(Join(j), b[|b| - 1]);
      var p := Join(a);
      assert Join(i) == p[..|Join(i)|] == Join(j);
      assert a[|a| - 1] == p[|Join(i)| + 1..] == b[|b| - 1];
      JoinApart(i, j);
      assert a == i + [a[|a| - 1]] && b == j + [b[|b| - 1]];
    }
  }

  /** The names that are left of these pieces. */
  function Solid(names: seq<string>): seq<string> {
    if names == [] then []
    else
      var last := names[|names| - 1];
      Solid(names[..|names| - 1]) + if Vanishes(last) then [] else [last]
  }

  lemma {:induction false} ParentStays(names: seq<string>)
    ensures ".." in names ==> Parent in AllComponents(names)
  {
    if names != [] {
      var init, last := names[..|names| - 1], names[|names| - 1];
      assert names == init + [last];
      if ".." in init { ParentStays(init); }
    }
  }

  /** Without a piece that leads upwards the components are the solid names. */
  lemma {:induction false} SolidComponents(names: seq<string>)
    requires AllSlashFree(names) && ".." !in names
    ensures AllComponents(names) == Normals(Solid(names)) && NamesOk(Solid(names))
  {
    hide SlashFree;
    if names != [] {
      var init, last := names[..|names| - 1], names[|names| - 1];
      assert names == init + [last] && last in names;
      SolidComponents(init);
      if !Vanishes(last) {
        assert Normals(Solid(init) + [last]) == Normals(Solid(init)) + [Normal(last)];
      }
    }
  }

  lemma {:induction false} SolidIsFewer(names: seq<string>)
    ensures |Solid(names)| <= |names| && forall n :: n in Solid(names) ==> n in names && !Vanishes(n)
    ensures Solid(names) == names <==> forall n :: n in names ==> !Vanishes(n)
  {
    if names != [] {
      var init, last := names[..|names| - 1], names[|names| - 1];
      assert names == init + [last];
      SolidIsFewer(init);
    }
  }

  lemma NormalsApart(a: seq<string>, b: seq<string>)
    ensures Normals(a) == Normals(b) <==> a == b
    ensures Parent !in Normals(a)
  {
    if Normals(a) == Normals(b) {
      assert |a| == |Normals(a)| == |b|;
      forall i | 0 <= i < |a| ensures a[i] == b[i] { assert Normals(a)[i] == Normals(b)[i]; }
    }
  }

  /** When the pieces before the last are those of the glob's directory, for the path matcher. */
  lemma SameDirectory(inner: seq<string>, dirs: seq<string>)
    requires AllSlashFree(inner) && NamesOk(dirs)
    ensures AllComponents(inner) == Normals(dirs) <==> ".." !in inner && Solid(inner) == dirs
  {
    NormalsApart(dirs, dirs);
    if ".." in inner {
      ParentStays(inner);
    } else {
      SolidComponents(inner);
      NormalsApart(Solid(inner), dirs);
    }
  }

  lemma NamesAreSlashFree(names: seq<string>)
    requires NamesOk(names)
    ensures AllSlashFree(names) && ".." !in names && forall n :: n in names ==> !Vanishes(n)
  {
  }

  /** The two matchers look at an absolute binary through its pieces. */
  lemma BinaryByPieces(pieces: seq<string>)
    requires pieces != [] && AllSlashFree(pieces)
    ensures var b, inner, last := Join(pieces), pieces[..|pieces| - 1], pieces[|pieces| - 1];
            && AllSlashFree(inner) && SlashFree(last)
            && (forall d :: DirectlyIn(b, d) <==> d == Join(inner))
            && (forall p :: HasBasename(b, p) <==> p == last)
            && Components(b) == [Root] + AllComponents(inner) + PieceComponents(last)
  {
    hide LastSlash, Components, PieceComponents;
    var b, inner, last := Join(pieces), pieces[..|pieces| - 1], pieces[|pieces| - 1];
    assert last in pieces;
    ComponentsOfPieces(pieces);
    LastSlashAt(Join(inner), last);
    assert b[..|Join(inner)|] == Join(inner) && b[|Join(inner)| + 1..] == last;
    forall d ensures DirectlyIn(b, d) <==> d == Join(inner) { DirectlyInByLastSlash(b, d); }
    forall p ensures HasBasename(b, p) <==> p == last { BasenameByLastSlash(b, p); }
  }

  /** A pattern whose directory glob is written canonically. */
  ghost predicate CanonicalPattern(x: string) {
    EndsWith(x, "/*") ==> exists dirs :: NamesOk(dirs) && x[..|x| - 2] == Join(dirs)
  }

  /** On an aligned binary both matchers see the same directory and the same name. */
  lemma AlignedSame(pieces: seq<string>)
    requires pieces != [] && AllSlashFree(pieces) && PathsAlign(pieces)
    ensures var b, inner, last := Join(pieces), pieces[..|pieces| - 1], pieces[|pieces| - 1];
            && FileName(b) == Some(last)
            && ParentOf(b).Some?
            && forall dirs :: NamesOk(dirs) ==> (ParentOf(b).value == [Root] + Normals(dirs) <==> inner == dirs)
  {
    hide Components, AllComponents, Normals, Join, Solid;
    var b, inner, last := Join(pieces), pieces[..|pieces| - 1], pieces[|pieces| - 1];
    BinaryByPieces(pieces);
    var c := [Root] + AllComponents(inner);
    assert Components(b) == c + [Normal(last)];
    assert (c + [Normal(last)])[..|c|] == c;
    forall dirs | NamesOk(dirs) ensures ParentOf(b).value == [Root] + Normals(dirs) <==> inner == dirs {
      SameDirectory(inner, dirs);
      NamesAreSlashFree(dirs);
      SolidIsFewer(inner);
      assert c == [Root] + Normals(dirs) <==> AllComponents(inner) == Normals(dirs) by {
        assert c[1..] == AllComponents(inner) && ([Root] + Normals(dirs))[1..] == Normals(dirs);
      }
    }
  }

  lemma AlignedAgree(command: string, pieces: seq<string>, pattern: string)
    requires pieces != [] && AllSlashFree(pieces) && Binary(command) == Join(pieces) && PathsAlign(pieces)
    requires CanonicalPattern(pattern)
    ensures Matches(command, pattern) <==> RustMatches(command, pattern)
  {
    hide Join, NamesOk, Components, ParentOf, FileName, Binary, DirectlyIn, HasBasename, Normals, PathsAlign;
    AlignedSame(pieces);
    BinaryByPieces(pieces);
    if EndsWith(pattern, " *") {
      var p := pattern[..|pattern| - 2];
      assert p + " " <= command <==> |command| > |p| && command[|p|] == ' ' && p <= command;
    } else if EndsWith(pattern, "/*") {
      var dirs :| NamesOk(dirs) && pattern[..|pattern| - 2] == Join(dirs);
      GlobDirectory(dirs);
      DirsApart(pieces[..|pieces| - 1], dirs);
    }
  }

  lemma DirsApart(inner: seq<string>, dirs: seq<string>)
    requires AllSlashFree(inner) && NamesOk(dirs)
    ensures Join(dirs) == Join(inner) <==> inner == dirs
  {
    NamesAreSlashFree(dirs);
    if Join(dirs) == Join(inner) { JoinApart(inner, dirs); }
  }

  /** The components of a glob's directory. */
  lemma GlobDirectory(dirs: seq<string>)
    requires NamesOk(dirs)
    ensures (if Join(dirs) == "" then [Root] else Components(Join(dirs))) == [Root] + Normals(dirs)
  {
    if dirs == [] {
      assert [Root] + Normals(dirs) == [Root];
    } else {
      ComponentsOfJoin(dirs);
    }
  }

  // ---- Where the matchers part -----------------------------------------------------------

  lemma {:induction false} SolidIsShorter(names: seq<string>)
    ensures |Join(Solid(names))| <= |Join(names)|
    ensures Solid(names) != names ==> |Join(Solid(names))| < |Join(names)|
  {
    hide Join;
    if names != [] {
      var init, last := names[..|names| - 1], names[|names| - 1];
      assert names == init + [last];
      SolidIsShorter(init);
      JoinSnoc(init, last);
      JoinSnoc(Solid(init), last);
      assert Vanishes(last) ==> Solid(names) == Solid(init);
    }
  }

  lemma JoinSnoc(names: seq<string>, x: string)
    ensures Join(names + [x]) == Join(names) + "/" + x
  {
    assert (names + [x])[..|names|] == names;
  }

  /** What a pattern is when it is a directory glob, and when it is a bare name. */
  predicate GlobOf(x: string, d: string) {
    x != "ALL" && x != "*" && !EndsWith(x, " *") && EndsWith(x, "/*") && x[..|x| - 2] == d
  }

  predicate BareName(x: string) {
    x != "ALL" && x != "*" && !EndsWith(x, " *") && !EndsWith(x, "/*") && SlashFree(x)
  }

  lemma GlobIs(d: string)
    ensures GlobOf(d + "/*", d)
  {
    var x := d + "/*";
    assert x[|x| - 1] == '*' && x[|x| - 2] == '/';
    assert x[|x| - 2..] == "/*";
  }

  /** A directory glob that is not the command itself, for both matchers. */
  lemma GlobMatch(command: string, x: string, d: string)
    requires command != x && GlobOf(x, d)
    ensures Matches(command, x) <==> DirectlyIn(Binary(command), d)
    ensures ParentOf(Binary(command)).Some? ==>
              (RustMatches(command, x) <==>
                 ParentOf(Binary(command)).value == if d == "" then [Root] else Components(d))
  {
    hide ParentOf, FileName, Components, Binary, DirectlyIn, HasBasename, EndsWith, SlashFree;
  }

  /** A bare name that is not the command itself, for both matchers. */
  lemma NameMatch(command: string, x: string)
    requires command != x && BareName(x)
    ensures Matches(command, x) <==> HasBasename(Binary(command), x)
    ensures RustMatches(command, x) <==> FileName(Binary(command)) == Some(x)
  {
    hide ParentOf, FileName, Components, Binary, DirectlyIn, HasBasename, EndsWith, SlashFree;
  }

  lemma CanonicalGlob(dirs: seq<string>)
    requires NamesOk(dirs)
    ensures CanonicalPattern(Join(dirs) + "/*")
  {
    GlobIs(Join(dirs));
  }

  /** The directory that the path matcher sees. */
  lemma SolidParent(pieces: seq<string>)
    requires pieces != [] && AllSlashFree(pieces)
    requires NameOk(pieces[|pieces| - 1]) && ".." !in pieces[..|pieces| - 1]
    ensures var dirs := Solid(pieces[..|pieces| - 1]);
            NamesOk(dirs) && ParentOf(Join(pieces)) == Some([Root] + Normals(dirs))
  {
    hide Components, AllComponents, Normals, Solid, DirectlyIn, HasBasename, PieceComponents, NamesOk, Join, NameOk;
    hide AllSlashFree, SlashFree;
    var inner, last := pieces[..|pieces| - 1], pieces[|pieces| - 1];
    BinaryByPieces(pieces);
    SolidComponents(inner);
    SolidName(last);
    var c := [Root] + AllComponents(inner);
    assert (c + [Normal(last)])[..|c|] == c;
  }

  /** With a piece that vanishes, the canonical glob of the directory meant is seen by the path matcher
      alone. */
  lemma SolidGlobParts(command: string, pieces: seq<string>)
    requires pieces != [] && AllSlashFree(pieces) && Binary(command) == Join(pieces)
    requires var inner := pieces[..|pieces| - 1];
             NameOk(pieces[|pieces| - 1]) && ".." !in inner && Solid(inner) != inner
    ensures var x := Join(Solid(pieces[..|pieces| - 1])) + "/*";
            CanonicalPattern(x) && !Matches(command, x) && RustMatches(command, x)
  {
    hide *;
    var b, inner, last := Join(pieces), pieces[..|pieces| - 1], pieces[|pieces| - 1];
    var dirs := Solid(inner);
    var x := Join(dirs) + "/*";
    SolidParent(pieces);
    CanonicalGlob(dirs);
    GlobDirectory(dirs);
    BinaryByPieces(pieces);
    DirsApart(inner, dirs);
    LongerThanGlob(command, pieces);
    GlobIs(Join(dirs));
    GlobMatch(command, x, Join(dirs));
  }

  lemma LongerThanGlob(command: string, pieces: seq<string>)
    requires pieces != [] && Binary(command) == Join(pieces)
    requires var inner := pieces[..|pieces| - 1];
             NameOk(pieces[|pieces| - 1]) && Solid(inner) != inner
    ensures command != Join(Solid(pieces[..|pieces| - 1])) + "/*"
  {
    var inner, last := pieces[..|pieces| - 1], pieces[|pieces| - 1];
    assert |command| >= |Join(pieces)| && |last| > 0;
    hide Join, Solid, Binary;
    SolidIsShorter(inner);
    JoinSnoc(inner, last);
    assert inner + [last] == pieces;
  }

  lemma SolidName(name: string)
    requires NameOk(name)
    ensures PieceComponents(name) == [Normal(name)]
  {
  }

  lemma {:induction false} NormalsAreNames(names: seq<string>)
    ensures forall c :: c in AllComponents(names) && c.Normal? ==> !Vanishes(c.name) && c.name != ".."
  {
    if names != [] { NormalsAreNames(names[..|names| - 1]); }
  }

  lemma NoFileName(path: string, c: seq<Component>, x: string)
    requires !NameOk(x) && SlashFree(x) && Components(path) == [Root] + c + PieceComponents(x)
    requires forall e :: e in c && e.Normal? ==> !Vanishes(e.name) && e.name != ".."
    ensures FileName(path) != Some(x)
  {
    hide Components;
    var all := [Root] + c + PieceComponents(x);
    var e := all[|all| - 1];
    assert e == Root || e in c || e in PieceComponents(x);
  }

  lemma BareNames(x: string)
    requires !NameOk(x) && SlashFree(x)
    ensures BareName(x) && CanonicalPattern(x)
  {
  }

  /** A last piece that is no name is a basename for the byte matcher alone. */
  lemma NamelessParts(command: string, pieces: seq<string>)
    requires pieces != [] && AllSlashFree(pieces) && Binary(command) == Join(pieces)
    requires !NameOk(pieces[|pieces| - 1])
    ensures var x := pieces[|pieces| - 1];
            CanonicalPattern(x) && Matches(command, x) && !RustMatches(command, x)
  {
    hide *;
    var b, inner, x := Join(pieces), pieces[..|pieces| - 1], pieces[|pieces| - 1];
    BinaryByPieces(pieces);
    NormalsAreNames(inner);
    NoFileName(b, AllComponents(inner), x);
    BareNames(x);
    JoinIsAbsolute(pieces);
    AbsoluteIsNoName(command, x);
    NameMatch(command, x);
  }

  lemma AbsoluteIsNoName(command: string, x: string)
    requires Absolute(Binary(command)) && SlashFree(x)
    ensures command != x
  {
    assert command[0] == Binary(command)[0] && command[0] in command;
  }

  lemma {:induction false} JoinIsAbsolute(pieces: seq<string>)
    requires pieces != []
    ensures Absolute(Join(pieces))
  {
    if |pieces| > 1 { JoinIsAbsolute(pieces[..|pieces| - 1]); }
  }

  /** WHERE THE PORT'S MATCHER IS THE ORIGINAL'S.  On a command with an absolute binary the two agree on
      every canonical pattern if and only if the last piece of the binary is a name and, unless another
      piece leads upwards, no other piece is empty or a dot. */
  lemma AgreeExactly(command: string)
    requires Absolute(Binary(command))
    ensures (forall x :: CanonicalPattern(x) ==> (Matches(command, x) <==> RustMatches(command, x)))
            <==> PathsAlign(Pieces(Binary(command)))
  {
    hide Matches, RustMatches, CanonicalPattern, Join, Pieces, AllSlashFree;
    var pieces := Pieces(Binary(command));
    PiecesJoin(Binary(command));
    if PathsAlign(pieces) {
      forall x | CanonicalPattern(x) ensures Matches(command, x) <==> RustMatches(command, x) {
        AlignedAgree(command, pieces, x);
      }
    } else if NameOk(pieces[|pieces| - 1]) {
      SolidIsFewer(pieces[..|pieces| - 1]);
      SolidGlobParts(command, pieces);
    } else {
      NamelessParts(command, pieces);
    }
  }

  /** A doubled slash, which command resolution leaves alone: the original sees the directory, the port
      does not. */
  lemma DoubledSlashParts()
    ensures !Matches("/b//ls", "/b/*") && RustMatches("/b//ls", "/b/*")
  {
    hide Join, Solid, Matches, RustMatches;
    var command, pieces := "/b//ls", ["b", "", "ls"];
    assert pieces[..2] == ["b", ""];
    DoubledSlashPieces();
    assert command[..|command|] == command;
    FindFirst(command, ' ', |command|);
    SolidGlobParts(command, pieces);
    assert "/b" + "/*" == "/b/*";
  }

  lemma DoubledSlashPieces()
    ensures Join(["b", "", "ls"]) == "/b//ls" && Solid(["b", ""]) == ["b"] && Join(["b"]) == "/b"
  {
    JoinSnoc([], "b");
    JoinSnoc(["b"], "");
    JoinSnoc(["b", ""], "ls");
    assert [] + ["b"] == ["b"] && ["b"] + [""] == ["b", ""] && ["b", ""] + ["ls"] == ["b", "", "ls"];
    assert ["b"][..0] == [] && ["b", ""][..1] == ["b"];
  }
}
