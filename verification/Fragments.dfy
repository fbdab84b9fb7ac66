/** Policy fragments: an in-place insertion sort of the directory listing, then the rules of every
    accepted fragment appended in that order. */
module Fragments {
  import opened PolicySpec
  import opened PolicyParser
  import Authorization

  // ---- Byte-wise lexicographic order -----------------------------------------------------

  function Lex(a: string, b: string): int {
    if a == [] || b == [] then |a| - |b|
    else if a[0] != b[0] then (a[0] as int) - (b[0] as int)
    else Lex(a[1..], b[1..])
  }

  predicate Leq(a: string, b: string) { Lex(a, b) <= 0 }

  method StrCompareLex(a: string, b: string) returns (c: int)
    ensures c == Lex(a, b)
  {
    var min := if |b| < |a| then |b| else |a|;
    var i := 0;
    while i < min
      invariant 0 <= i <= min
      invariant Lex(a, b) == Lex(a[i..], b[i..])
    {
      if a[i] != b[i] { return (a[i] as int) - (b[i] as int); }
      assert a[i..][1..] == a[i + 1..] && b[i..][1..] == b[i + 1..];
      i := i + 1;
    }
    c := |a| - |b|;
  }

  lemma {:induction false} LexMirror(a: string, b: string)
    ensures Lex(a, b) == -Lex(b, a)
    ensures Lex(a, b) == 0 <==> a == b
  {
    if a != [] && b != [] && a[0] == b[0] {
      LexMirror(a[1..], b[1..]);
      assert a == [a[0]] + a[1..] && b == [b[0]] + b[1..];
    }
  }

  lemma {:induction false} LexTransitive(a: string, b: string, c: string)
    requires Leq(a, b) && Leq(b, c)
    ensures Leq(a, c)
  {
    if a != [] && b != [] && c != [] && a[0] == b[0] == c[0] {
      LexTransitive(a[1..], b[1..], c[1..]);
    }
  }

  /** The comparison is a total order: the ordering the loader relies on. */
  lemma LexTotalOrder()
    ensures forall a :: Leq(a, a)
    ensures forall a, b :: Leq(a, b) || Leq(b, a)
    ensures forall a, b :: Leq(a, b) && Leq(b, a) ==> a == b
    ensures forall a, b, c :: Leq(a, b) && Leq(b, c) ==> Leq(a, c)
  {
    forall a ensures Leq(a, a) { LexMirror(a, a); }
    forall a, b ensures Leq(a, b) || Leq(b, a) { LexMirror(a, b); }
    forall a, b | Leq(a, b) && Leq(b, a) ensures a == b { LexMirror(a, b); }
    forall a, b, c | Leq(a, b) && Leq(b, c) ensures Leq(a, c) { LexTransitive(a, b, c); }
  }

  /** `a` and `b` first differ at `i`, and there `a` has the smaller byte. */
  predicate SmallerAt(a: string, b: string, i: nat) {
    i < |a| && i < |b| && a[..i] == b[..i] && a[i] < b[i]
  }

  lemma SmallerBehind(a: string, b: string, i: nat)
    requires a != [] && b != [] && a[0] == b[0]
    ensures SmallerAt(a, b, i + 1) <==> SmallerAt(a[1..], b[1..], i)
    ensures !SmallerAt(a, b, 0) && (a <= b <==> a[1..] <= b[1..])
  {
    if i + 1 <= |a| && i + 1 <= |b| {
      assert a[..i + 1] == [a[0]] + a[1..][..i] && b[..i + 1] == [b[0]] + b[1..][..i];
      assert a[1..][..i] == a[..i + 1][1..] && b[1..][..i] == b[..i + 1][1..];
    }
    assert a == [a[0]] + a[1..] && b == [b[0]] + b[1..];
  }

  lemma SmallerAtOnce(a: string, b: string, i: nat)
    requires a != [] && b != [] && a[0] != b[0]
    ensures SmallerAt(a, b, 0) <==> a[0] < b[0]
    ensures i > 0 ==> !SmallerAt(a, b, i)
    ensures !(a <= b)
  {
    assert 0 < i <= |a| && i <= |b| ==> a[..i][0] == a[0] && b[..i][0] == b[0];
  }

  /** Which order it is: a name comes before every continuation of it, and otherwise the first differing
      byte decides. */
  lemma {:induction false} LexByFirstDifference(a: string, b: string)
    ensures Leq(a, b) <==> a <= b || exists i: nat :: SmallerAt(a, b, i)
  {
    hide SmallerAt;
    if a != [] && b != [] {
      if a[0] == b[0] {
        LexByFirstDifference(a[1..], b[1..]);
        SmallerBehind(a, b, 0);
        if i: nat :| SmallerAt(a, b, i) { SmallerBehind(a, b, i - 1); }
        if i: nat :| SmallerAt(a[1..], b[1..], i) { SmallerBehind(a, b, i); }
      } else {
        SmallerAtOnce(a, b, 0);
        if i: nat :| SmallerAt(a, b, i) { SmallerAtOnce(a, b, i); }
      }
    } else {
      NothingSmaller(a, b);
    }
  }

  lemma NothingSmaller(a: string, b: string)
    requires a == [] || b == []
    ensures forall i: nat :: !SmallerAt(a, b, i)
  {
  }

  // ---- Sorting ---------------------------------------------------------------------------

  ghost predicate Sorted(s: seq<string>) {
    forall i, j :: 0 <= i < j < |s| ==> Leq(s[i], s[j])
  }

  ghost predicate IsSortOf(s: seq<string>, names: seq<string>) {
    Sorted(s) && multiset(s) == multiset(names)
  }

  method SortStrVec(v: array<string>)
    modifies v
    ensures IsSortOf(v[..], old(v[..]))
  {
    hide Lex, Leq;
    var n := v.Length;
    var i := 1;
    while i < n
      invariant 1 <= i && (n == 0 || i <= n)
      invariant forall p, q :: 0 <= p < q < i && q < n ==> Leq(v[p], v[q])
      invariant multiset(v[..]) == multiset(old(v[..]))
    {
      SinkInto(v, i);
      i := i + 1;
    }
  }

  /** The inner loop: the element at `i` sinks to its place in the sorted part before it. */
  method SinkInto(v: array<string>, i: nat)
    requires i < v.Length && forall p, q :: 0 <= p < q < i ==> Leq(v[p], v[q])
    modifies v
    ensures forall p, q :: 0 <= p < q <= i ==> Leq(v[p], v[q])
    ensures multiset(v[..]) == multiset(old(v[..]))
  {
    hide Lex;
    LexTotalOrder();
    hide Leq;
    var j := i;
    while j > 0
      invariant 0 <= j <= i
      invariant forall p, q :: 0 <= p < q <= i && q != j ==> Leq(v[p], v[q])
      invariant multiset(v[..]) == multiset(old(v[..]))
    {
      var c := StrCompareLex(v[j - 1], v[j]);
      ComparesAs(v[j - 1], v[j], c);
      if c <= 0 { break; }
      v[j - 1], v[j] := v[j], v[j - 1];
      j := j - 1;
    }
  }

  lemma ComparesAs(a: string, b: string, c: int)
    requires c == Lex(a, b)
    ensures c <= 0 <==> Leq(a, b)
  {
  }

  lemma SameLeast(s: seq<string>, t: seq<string>)
    requires Sorted(s) && Sorted(t) && multiset(s) == multiset(t) && s != [] && t != []
    ensures s[0] == t[0]
  {
    LexTotalOrder();
    hide Leq, Lex;
    assert s[0] in multiset(t) && t[0] in multiset(s);
    var i :| 0 <= i < |t| && t[i] == s[0];
    var j :| 0 <= j < |s| && s[j] == t[0];
    assert Leq(s[0], s[j]) && Leq(t[0], t[i]);
  }

  lemma {:induction false} SortedUnique(s: seq<string>, t: seq<string>)
    requires Sorted(s) && Sorted(t) && multiset(s) == multiset(t)
    ensures s == t
  {
    hide Leq, Lex;
    assert |s| == |multiset(s)| && |t| == |multiset(t)|;
    if s != [] {
      SameLeast(s, t);
      assert s == [s[0]] + s[1..] && t == [t[0]] + t[1..];
      assert multiset(s[1..]) == multiset(s) - multiset{s[0]};
      assert multiset(t[1..]) == multiset(t) - multiset{t[0]};
      SortedUnique(s[1..], t[1..]);
    }
  }

  // ---- Loading ---------------------------------------------------------------------------

  /** A directory entry as the loader sees it: whether stat succeeds and finds a root-owned file
      that is not world-writable, and what reading it returns. */
  datatype FileView = FileView(trusted: bool, content: string)

  predicate IsToml(name: string) {
    |name| >= 5 && name[|name| - 5..] == ".toml"
  }

  predicate Accepted(name: string, dir: string -> FileView) {
    IsToml(name) && dir(name).trusted && dir(name).content != []
  }

  function FragmentRules(names: seq<string>, dir: string -> FileView): seq<Rule> {
    if names == [] then []
    else RulesOf(names[0], dir) + FragmentRules(names[1..], dir)
  }

  lemma {:induction false} FragmentsSnoc(names: seq<string>, i: nat, dir: string -> FileView)
    requires i < |names|
    ensures FragmentRules(names[..i + 1], dir) == FragmentRules(names[..i], dir) + RulesOf(names[i], dir)
    decreases i
  {
    hide RulesOf;
    if i > 0 {
      assert names[..i + 1][1..] == names[1..][..i] && names[..i][1..] == names[1..][..i - 1];
      FragmentsSnoc(names[1..], i - 1, dir);
    } else {
      assert names[..1][1..] == [];
    }
  }

  /** Append the rules of one fragment.  The records are the fragment's own. */
  method AppendRules(pol: PolicyRec, frag: PolicyRec)
    requires pol != frag && pol.Valid() && frag.Valid()
    requires forall r :: r in frag.rules ==> r !in pol.rules
    modifies pol`rules
    ensures pol.rules == old(pol.rules) + frag.rules && pol.Valid()
  {
    var fi := 0;
    assert frag.rules[..0] == [];
    while fi < |frag.rules|
      invariant 0 <= fi <= |frag.rules|
      invariant frag.rules == old(frag.rules)
      invariant pol.rules == old(pol.rules) + frag.rules[..fi]
    {
      pol.rules := pol.rules + [frag.rules[fi]];
      fi := fi + 1;
    }
    assert frag.rules[..fi] == frag.rules;
    forall i, j | 0 <= i < j < |pol.rules| ensures pol.rules[i] != pol.rules[j] {
      var m := |old(pol.rules)|;
      if i < m <= j { assert pol.rules[j] == frag.rules[j - m] && pol.rules[i] in old(pol.rules); }
    }
  }

  /** The rules one directory entry contributes. */
  function RulesOf(name: string, dir: string -> FileView): seq<Rule> {
    if Accepted(name, dir) then ParsePolicy(dir(name).content).rules else []
  }

  lemma AppendAssoc<T>(a: seq<T>, b: seq<T>, c: seq<T>)
    ensures a + b + c == a + (b + c)
  {
  }

  method LoadOne(pol: PolicyRec, nm: string, dir: string -> FileView)
    requires pol.Valid()
    modifies pol`rules
    ensures pol.Valid()
    ensures pol.Value() == old(pol.Value()).(rules := old(pol.Value()).rules + RulesOf(nm, dir))
  {
    hide ParsePolicy, IsToml;
    ghost var p0 := pol.Value();
    assert p0.rules + [] == p0.rules;
    if IsToml(nm) {
      var f := dir(nm);
      if f.trusted && |f.content| > 0 {
        var frag := ParsePolicyText(f.content);
        ghost var got := frag.Value().rules;
        AppendRules(pol, frag);
        assert pol.Value().rules == p0.rules + got;
      }
    }
  }

  method LoadFragments(pol: PolicyRec, dirTrusted: bool, names: array<string>, dir: string -> FileView)
    requires pol.Valid()
    modifies pol`rules, names
    ensures pol.Valid()
    ensures !dirTrusted ==> pol.Value() == old(pol.Value())
    ensures dirTrusted ==> IsSortOf(names[..], old(names[..]))
    ensures dirTrusted ==>
              pol.Value() == old(pol.Value()).(rules := old(pol.Value()).rules + FragmentRules(names[..], dir))
  {
    hide RulesOf, Sorted;
    if !dirTrusted { return; }
    SortStrVec(names);
    ghost var sorted := names[..];
    ghost var p0 := pol.Value();
    var ni := 0;
    assert sorted[..0] == [];
    while ni < names.Length
      invariant 0 <= ni <= names.Length && names[..] == sorted
      invariant pol.Valid()
      invariant pol.Value() == p0.(rules := p0.rules + FragmentRules(sorted[..ni], dir))
    {
      LoadOne(pol, names[ni], dir);
      FragmentsSnoc(sorted, ni, dir);
      AppendAssoc(p0.rules, FragmentRules(sorted[..ni], dir), RulesOf(sorted[ni], dir));
      ni := ni + 1;
    }
    assert sorted[..ni] == sorted;
  }

  /** Directory order does not matter: every listing of the same names sorts to the same list and
      so loads the same rules in the same order. */
  lemma LoadIsDeterministic(n1: seq<string>, n2: seq<string>, s1: seq<string>, s2: seq<string>,
                            dir: string -> FileView)
    requires multiset(n1) == multiset(n2) && IsSortOf(s1, n1) && IsSortOf(s2, n2)
    ensures s1 == s2 && FragmentRules(s1, dir) == FragmentRules(s2, dir)
  {
    SortedUnique(s1, s2);
  }

  /** One directory entry: a root-owned, not world-writable, nonempty file with a name in `.toml` gives its
      rules, and anything else gives none. */
  lemma OneFragment(name: string, dir: string -> FileView)
    ensures FragmentRules([name], dir) ==
              if |name| >= 5 && name[|name| - 5..] == ".toml" && dir(name).trusted && dir(name).content != ""
              then ParsePolicy(dir(name).content).rules
              else []
  {
    assert [name][1..] == [];
  }

  /** Fragments are loaded one after the other, in the order of the list. */
  lemma {:induction false} FragmentsInOrder(a: seq<string>, b: seq<string>, dir: string -> FileView)
    ensures FragmentRules(a + b, dir) == FragmentRules(a, dir) + FragmentRules(b, dir)
  {
    hide RulesOf;
    if a == [] {
      assert a + b == b;
    } else {
      assert (a + b)[1..] == a[1..] + b;
      FragmentsInOrder(a[1..], b, dir);
    }
  }

  // ---- The whole policy ------------------------------------------------------------------

  /** An include directory: whether it is a root-owned directory that is not world-writable, and its
      listing, in whatever order the directory gives it. */
  datatype DirView = DirView(trusted: bool, names: seq<string>)

  /** The policy that a main file and its include directory define: the main defaults untouched, the
      main rules first, then the fragments' rules in name order. */
  ghost predicate Defines(p: Policy, content: string, dirAt: string -> DirView,
                          fileAt: (string, string) -> FileView) {
    var main := ParsePolicy(content);
    match main.defaults.includeDir
    case None => p == main
    case Some(inc) =>
      if !dirAt(inc).trusted then p == main
      else exists sorted :: IsSortOf(sorted, dirAt(inc).names)
             && p == main.(rules := main.rules + FragmentRules(sorted, n => fileAt(inc, n)))
  }

  method LoadPolicy(file: FileView, dirAt: string -> DirView, fileAt: (string, string) -> FileView)
    returns (pol: PolicyRec?)
    ensures pol == null <==> !file.trusted || file.content == ""
    ensures pol != null ==> pol.Valid() && Defines(pol.Value(), file.content, dirAt, fileAt)
  {
    hide ParsePolicy, FragmentRules, Sorted;
    pol := null;
    if !file.trusted { return; }
    if |file.content| <= 0 { return; }
    var p := ParsePolicyText(file.content);
    var inc := p.defaults.includeDir;
    ghost var main := p.Value();
    assert inc == main.defaults.includeDir;
    if inc.Some? {
      var d := dirAt(inc.value);
      var names := new string[|d.names|](i requires 0 <= i < |d.names| => d.names[i]);
      assert names[..] == d.names;
      LoadFragments(p, d.trusted, names, n => fileAt(inc.value, n));
    }
    pol := p;
  }

  /** The loaded policy is one policy: no two orders of the same directory listing define different
      ones. */
  lemma LoadedPolicyUnique(p: Policy, p': Policy, content: string, dirAt: string -> DirView,
                           dirAt': string -> DirView, fileAt: (string, string) -> FileView)
    requires Defines(p, content, dirAt, fileAt) && Defines(p', content, dirAt', fileAt)
    requires forall d :: dirAt(d).trusted == dirAt'(d).trusted
                         && multiset(dirAt(d).names) == multiset(dirAt'(d).names)
    ensures p == p'
  {
    hide ParsePolicy, FragmentRules, Sorted;
    var main := ParsePolicy(content);
    if main.defaults.includeDir.Some? {
      var inc := main.defaults.includeDir.value;
      if dirAt(inc).trusted {
        var f := n => fileAt(inc, n);
        var s :| IsSortOf(s, dirAt(inc).names)
                 && p == main.(rules := main.rules + FragmentRules(s, n => fileAt(inc, n)));
        var s' :| IsSortOf(s', dirAt'(inc).names)
                 && p' == main.(rules := main.rules + FragmentRules(s', n => fileAt(inc, n)));
        LoadIsDeterministic(dirAt(inc).names, dirAt'(inc).names, s, s', f);
      }
    }
  }

  /** What a loaded policy is made of: the main defaults, the main rules first, and fragments only from a
      trusted include directory that the main file names. */
  lemma DefinedByMain(p: Policy, content: string, dirAt: string -> DirView, fileAt: (string, string) -> FileView)
    requires Defines(p, content, dirAt, fileAt)
    ensures var main := ParsePolicy(content);
            var inc := main.defaults.includeDir;
            && p.defaults == main.defaults && main.rules <= p.rules
            && (inc.None? ==> p.rules == main.rules)
            && (inc.Some? && !dirAt(inc.value).trusted ==> p.rules == main.rules)
            && (inc.Some? && dirAt(inc.value).trusted ==>
                  exists names :: Sorted(names) && multiset(names) == multiset(dirAt(inc.value).names)
                    && p.rules == main.rules + FragmentRules(names, n => fileAt(inc.value, n)))
  {
    hide ParsePolicy, FragmentRules, Sorted;
  }

  /** No fragment overrides the main file: a request that one of its rules decides keeps its outcome
      whatever fragments are installed. */
  lemma FragmentsNeverOverride(m: Authorization.PatternRelation, p: Policy, content: string,
                               dirAt: string -> DirView, fileAt: (string, string) -> FileView,
                               q: Authorization.Request, a: Authorization.Authz, b: Authorization.Authz)
    requires Defines(p, content, dirAt, fileAt)
    requires Authorization.IsOutcome(m, ParsePolicy(content), q, a) && Authorization.IsOutcome(m, p, q, b)
    ensures a != Authorization.Denied(Authorization.NO_RULE) ==> b == a
  {
    hide ParsePolicy, FragmentRules, Sorted, Authorization.IsOutcome;
    var main := ParsePolicy(content);
    assert |main.rules| <= |p.rules|;
    var extra := p.rules[|main.rules|..];
    assert p == main.(rules := main.rules + extra);
    Authorization.AppendStability(m, main, extra, q, a, b);
  }
}
