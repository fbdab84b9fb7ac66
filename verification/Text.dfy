/** Byte strings and the scanning primitives that the shakti modules share.
    A byte is the char with that code.  The programs only compare bytes with each other and with
    fixed ASCII bytes, so a statement about every `string` covers every byte string. */
module Text {
  datatype Option<+T> = None | Some(value: T)

  const NUL := '\0'

  /** Position of the first `c`, or the length when there is none. */
  function Find(s: string, c: char): (r: nat)
    ensures r <= |s|
  {
    if s == [] || s[0] == c then 0 else 1 + Find(s[1..], c)
  }

  /** `Find` is the first occurrence. */
  lemma {:induction false} FindFirst(s: string, c: char, k: nat)
    requires k <= |s| && (forall i :: 0 <= i < k ==> s[i] != c)
    requires k < |s| ==> s[k] == c
    ensures Find(s, c) == k
  {
    if k > 0 { FindFirst(s[1..], c, k - 1); }
  }

  lemma {:induction false} FindMeets(s: string, c: char)
    ensures forall i :: 0 <= i < Find(s, c) ==> s[i] != c
    ensures Find(s, c) < |s| ==> s[Find(s, c)] == c
  {
    if s != [] && s[0] != c {
      FindMeets(s[1..], c);
      assert forall i :: 0 < i < Find(s, c) ==> s[i] == s[1..][i - 1];
    }
  }

  lemma {:induction false} FindInPrefix(a: string, b: string, c: char)
    ensures Find(a + b, c) == if Find(a, c) < |a| then Find(a, c) else |a| + Find(b, c)
  {
    if a == [] {
      assert a + b == b;
    } else {
      assert (a + b)[1..] == a[1..] + b;
      FindInPrefix(a[1..], b, c);
    }
  }

  /** What a reader of NUL-terminated strings sees of a copied buffer. */
  function CStr(s: string): string {
    s[..Find(s, NUL)]
  }

  lemma CStrWhole(s: string)
    requires NUL !in s
    ensures CStr(s) == s
  {
    FindFirst(s, NUL, |s|);
  }

  predicate IsBlank(c: char) { c == ' ' || c == '\t' }

  predicate IsWs(c: char) { c == ' ' || c == '\t' || c == '\r' || c == '\n' }

  /** Padding: nothing but spaces and tabs, or spaces, tabs and line ends. */
  predicate AllBlank(s: string) { forall i :: 0 <= i < |s| ==> s[i] == ' ' || s[i] == '\t' }

  predicate AllWs(s: string) {
    forall i :: 0 <= i < |s| ==> s[i] == ' ' || s[i] == '\t' || s[i] == '\r' || s[i] == '\n'
  }

  function LeadBlank(s: string): (r: nat)
    ensures r <= |s|
  {
    if s == [] || !IsBlank(s[0]) then 0 else 1 + LeadBlank(s[1..])
  }

  function LeadWs(s: string): (r: nat)
    ensures r <= |s|
  {
    if s == [] || !IsWs(s[0]) then 0 else 1 + LeadWs(s[1..])
  }

  /** Length left after dropping trailing whitespace. */
  function KeepLen(s: string): (r: nat)
    ensures r <= |s|
  {
    if s == [] || !IsWs(s[|s| - 1]) then |s| else KeepLen(s[..|s| - 1])
  }

  function Trim(s: string): string {
    var t := s[LeadWs(s)..];
    t[..KeepLen(t)]
  }

  /** No whitespace at either end. */
  predicate Tight(s: string) {
    s != [] ==> !IsWs(s[0]) && !IsWs(s[|s| - 1])
  }

  lemma {:induction false} LeadBlankPadded(a: string, t: string)
    requires AllBlank(a) && (t != [] ==> !IsBlank(t[0]))
    ensures LeadBlank(a + t) == |a| && (a + t)[|a|..] == t
  {
    if a == [] {
      assert a + t == t;
    } else {
      assert (a + t)[1..] == a[1..] + t;
      LeadBlankPadded(a[1..], t);
    }
  }

  lemma {:induction false} LeadWsPadded(a: string, t: string)
    requires AllWs(a)
    ensures LeadWs(a + t) == |a| + LeadWs(t)
  {
    if a == [] {
      assert a + t == t;
    } else {
      assert (a + t)[1..] == a[1..] + t;
      LeadWsPadded(a[1..], t);
    }
  }

  lemma {:induction false} KeepLenPadded(t: string, b: string)
    requires AllWs(b)
    ensures KeepLen(t + b) == KeepLen(t)
  {
    if b == [] {
      assert t + b == t;
    } else {
      assert (t + b)[..|t + b| - 1] == t + b[..|b| - 1];
      KeepLenPadded(t, b[..|b| - 1]);
    }
  }

  lemma TrimPadded(a: string, t: string, b: string)
    requires AllWs(a) && AllWs(b) && Tight(t)
    ensures Trim(a + t + b) == t
  {
    if t == [] {
      assert AllWs(a + b) && a + t + b == a + b + [];
      LeadWsPadded(a + b, []);
    } else {
      assert a + t + b == a + (t + b);
      LeadWsPadded(a, t + b);
      assert (a + (t + b))[|a|..] == t + b;
      KeepLenPadded(t, b);
      assert (t + b)[..|t|] == t;
    }
  }

  /** `s` from index `n`, or nothing when `n` is past the end. */
  function Drop(s: string, n: nat): string {
    if n < |s| then s[n..] else []
  }

  lemma DropAppend(a: string, b: string)
    ensures Drop(a + b, |a|) == b
  {
    if b == [] { assert a + b == a; }
  }

  lemma SliceSlice(s: string, a: nat, b: nat, i: nat, j: nat)
    requires a <= b <= |s| && i <= j <= b - a
    ensures s[a..b][i..j] == s[a + i..a + j]
  {
    var l, r := s[a..b][i..j], s[a + i..a + j];
    assert |l| == |r|;
    assert forall k :: 0 <= k < |l| ==> l[k] == s[a + i + k];
    assert forall k :: 0 <= k < |r| ==> r[k] == s[a + i + k];
  }

  lemma HeadSlice(s: string, a: nat, b: nat, j: nat)
    requires a <= b <= |s| && j <= b - a
    ensures s[a..b][..j] == s[a..a + j]
  {
  }

  lemma TailSlice(s: string, a: nat, b: nat, i: nat)
    requires a <= b <= |s| && i <= b - a
    ensures s[a..b][i..] == s[a + i..b]
  {
  }

  lemma SuffixHead(s: string, a: nat, j: nat)
    requires a <= |s| && j <= |s| - a
    ensures s[a..][..j] == s[a..a + j]
  {
  }

  lemma Suffix(s: string, a: nat, i: nat)
    requires a <= |s| && i <= |s| - a
    ensures s[a..][i..] == s[a + i..]
  {
  }

  lemma SuffixAll(s: string, a: nat)
    requires a <= |s|
    ensures s[a..|s|] == s[a..]
  {
  }

  // ---- Words -----------------------------------------------------------------------------

  /** The words with one separator between each two. */
  function JoinBy(words: seq<string>, c: char): string {
    if words == [] then ""
    else if |words| == 1 then words[0]
    else JoinBy(words[..|words| - 1], c) + [c] + words[|words| - 1]
  }

  function SplitBy(s: string, c: char): seq<string>
    decreases |s|
  {
    var k := Find(s, c);
    if k == |s| then [s] else [s[..k]] + SplitBy(s[k + 1..], c)
  }

  lemma JoinSnoc(words: seq<string>, c: char, x: string)
    ensures JoinBy(words + [x], c) == if words == [] then x else JoinBy(words, c) + [c] + x
  {
    assert (words + [x])[..|words|] == words;
  }

  lemma SeparatorAt(a: string, c: char, b: string)
    requires c !in b
    ensures Find(a + [c] + b, c) == Find(a, c) && Find(b, c) == |b|
  {
    assert a + [c] + b == a + ([c] + b);
    FindInPrefix(a, [c] + b, c);
    FindFirst([c] + b, c, 0);
    FindFirst(b, c, |b|);
  }

  lemma {:induction false} SplitSnoc(a: string, c: char, b: string)
    requires c !in b
    ensures SplitBy(a + [c] + b, c) == SplitBy(a, c) + [b]
    decreases |a|
  {
    hide Find;
    var s := a + [c] + b;
    SeparatorAt(a, c, b);
    var k := Find(a, c);
    if k == |a| {
      assert s[..k] == a && s[k + 1..] == b;
    } else {
      assert s[..k] == a[..k] && s[k + 1..] == a[k + 1..] + [c] + b;
      SplitSnoc(a[k + 1..], c, b);
    }
  }

  /** Splitting undoes joining, for words without the separator. */
  lemma {:induction false} SplitJoin(words: seq<string>, c: char)
    requires words != [] && forall x :: x in words ==> c !in x
    ensures SplitBy(JoinBy(words, c), c) == words
  {
    var last := words[|words| - 1];
    assert last in words;
    if |words| == 1 {
      FindFirst(last, c, |last|);
    } else {
      var init := words[..|words| - 1];
      SplitJoin(init, c);
      SplitSnoc(JoinBy(init, c), c, last);
      assert init + [last] == words;
    }
  }

  /** The first word comes first. */
  lemma {:induction false} JoinStarts(words: seq<string>, c: char)
    requires words != []
    ensures var s := JoinBy(words, c);
            words[0] <= s && (|s| > |words[0]| ==> s[|words[0]|] == c)
  {
    if |words| > 1 { JoinStarts(words[..|words| - 1], c); }
  }

  // ---- Scanning --------------------------------------------------------------------------

  method FindByte(buf: string, start: nat, end: nat, c: char) returns (p: nat)
    requires start <= end <= |buf|
    ensures p == start + Find(buf[start..end], c)
  {
    p := start;
    while p < end
      invariant start <= p <= end
      invariant Find(buf[start..end], c) == p - start + Find(buf[p..end], c)
    {
      assert buf[p..end][1..] == buf[p + 1..end];
      if buf[p] == c { break; }
      p := p + 1;
    }
  }

  // ---- Decimal numbers -------------------------------------------------------------------

  const UINT_MAX := 4294967295

  /** Numbers up to the cap. */
  newtype Capped = x: int | 0 <= x <= 4294967295

  predicate IsDigit(c: char) { '0' <= c <= '9' }

  predicate AllDigits(s: string) { forall i :: 0 <= i < |s| ==> IsDigit(s[i]) }

  function DigitVal(c: char): nat
    requires IsDigit(c)
  {
    (c as int) - ('0' as int)
  }

  function DecValue(s: string): nat
    requires AllDigits(s)
  {
    if s == [] then 0 else DecValue(s[..|s| - 1]) * 10 + DigitVal(s[|s| - 1])
  }

  /** The value of a bounded decimal numeral; -1 for a non-digit or a value past the cap. */
  function DecOf(s: string): int {
    if AllDigits(s) && DecValue(s) <= UINT_MAX then DecValue(s) else -1
  }

  function DigitChar(d: nat): (c: char)
    requires d < 10
    ensures IsDigit(c) && DigitVal(c) == d
  {
    (('0' as int) + d) as char
  }

  function Dec(n: nat): (s: string)
    ensures AllDigits(s) && s != []
  {
    if n < 10 then [DigitChar(n)] else Dec(n / 10) + [DigitChar(n % 10)]
  }

  lemma {:induction false} DecValueOfDec(n: nat)
    ensures DecValue(Dec(n)) == n
  {
    if n >= 10 {
      DecValueOfDec(n / 10);
      assert Dec(n)[..|Dec(n)| - 1] == Dec(n / 10);
    }
  }

  lemma {:induction false} DecValuePrefix(s: string, i: nat)
    requires AllDigits(s) && i <= |s|
    ensures DecValue(s[..i]) <= DecValue(s)
  {
    if i == |s| {
      assert s[..i] == s;
    } else {
      DecValuePrefix(s[..|s| - 1], i);
      assert s[..|s| - 1][..i] == s[..i];
    }
  }

  /** Numerals of numbers up to the cap read back, larger ones and other texts do not. */
  lemma DecOfExactly(n: nat, s: string)
    ensures DecOf(Dec(n)) == if n <= 4294967295 then n else -1
    ensures (exists i :: 0 <= i < |s| && !('0' <= s[i] <= '9')) ==> DecOf(s) == -1
  {
    DecValueOfDec(n);
  }

  /** The digit loop shared by the policy and the passwd integer readers.  It computes in numbers up to
      the cap: no intermediate value passes it. */
  method ParseUint(buf: string, start: nat, end: nat) returns (v: int)
    requires start <= end <= |buf|
    ensures v == DecOf(buf[start..end])
  {
    var s := buf[start..end];
    var cap: Capped := 4294967295;
    var acc: Capped := 0;
    var p := start;
    while p < end
      invariant start <= p <= end
      invariant AllDigits(buf[start..p]) && acc as int == DecValue(buf[start..p])
    {
      var c := buf[p];
      assert s[p - start] == c;
      if c < '0' || c > '9' { return -1; }
      var digit: Capped := ((c as int) - ('0' as int)) as Capped;
      assert buf[start..p + 1][..p - start] == buf[start..p];
      assert DecValue(buf[start..p + 1]) == acc as int * 10 + digit as int;
      if acc > (cap - digit) / 10 {
        if AllDigits(s) {
          DecValuePrefix(s, p + 1 - start);
          assert s[..p + 1 - start] == buf[start..p + 1];
        }
        return -1;
      }
      acc := acc * 10 + digit;
      p := p + 1;
    }
    assert buf[start..p] == s;
    v := acc as int;
  }
}
