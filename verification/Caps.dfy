/** Linux capability names, bits and masks.  A mask is the source's 64-bit integer as a number; `Bit`
    reads one binary digit of it. */
module Caps {
  import opened Text

  const LAST_CAP := 40

  function BitToName(bit: int): string {
    match bit
    case 0 => "CAP_CHOWN"
    case 1 => "CAP_DAC_OVERRIDE"
    case 2 => "CAP_DAC_READ_SEARCH"
    case 3 => "CAP_FOWNER"
    case 4 => "CAP_FSETID"
    case 5 => "CAP_KILL"
    case 6 => "CAP_SETGID"
    case 7 => "CAP_SETUID"
    case 8 => "CAP_SETPCAP"
    case 9 => "CAP_LINUX_IMMUTABLE"
    case 10 => "CAP_NET_BIND_SERVICE"
    case 11 => "CAP_NET_BROADCAST"
    case 12 => "CAP_NET_ADMIN"
    case 13 => "CAP_NET_RAW"
    case 14 => "CAP_IPC_LOCK"
    case 15 => "CAP_IPC_OWNER"
    case 16 => "CAP_SYS_MODULE"
    case 17 => "CAP_SYS_RAWIO"
    case 18 => "CAP_SYS_CHROOT"
    case 19 => "CAP_SYS_PTRACE"
    case 20 => "CAP_SYS_PACCT"
    case 21 => "CAP_SYS_ADMIN"
    case 22 => "CAP_SYS_BOOT"
    case 23 => "CAP_SYS_NICE"
    case 24 => "CAP_SYS_RESOURCE"
    case 25 => "CAP_SYS_TIME"
    case 26 => "CAP_SYS_TTY_CONFIG"
    case 27 => "CAP_MKNOD"
    case 28 => "CAP_LEASE"
    case 29 => "CAP_AUDIT_WRITE"
    case 30 => "CAP_AUDIT_CONTROL"
    case 31 => "CAP_SETFCAP"
    case 32 => "CAP_MAC_OVERRIDE"
    case 33 => "CAP_MAC_ADMIN"
    case 34 => "CAP_SYSLOG"
    case 35 => "CAP_WAKE_ALARM"
    case 36 => "CAP_BLOCK_SUSPEND"
    case 37 => "CAP_AUDIT_READ"
    case 38 => "CAP_PERFMON"
    case 39 => "CAP_BPF"
    case 40 => "CAP_CHECKPOINT_RESTORE"
    case _ => ""
  }

  // The name table of the source, cut in three: each part is tried after the one before it.

  function FirstNames(name: string): int {
    if name == "CAP_CHOWN" then 0
    else if name == "CAP_DAC_OVERRIDE" then 1
    else if name == "CAP_DAC_READ_SEARCH" then 2
    else if name == "CAP_FOWNER" then 3
    else if name == "CAP_FSETID" then 4
    else if name == "CAP_KILL" then 5
    else if name == "CAP_SETGID" then 6
    else if name == "CAP_SETUID" then 7
    else if name == "CAP_SETPCAP" then 8
    else if name == "CAP_LINUX_IMMUTABLE" then 9
    else if name == "CAP_NET_BIND_SERVICE" then 10
    else if name == "CAP_NET_BROADCAST" then 11
    else if name == "CAP_NET_ADMIN" then 12
    else if name == "CAP_NET_RAW" then 13
    else -1
  }

  function MiddleNames(name: string): int {
    if name == "CAP_IPC_LOCK" then 14
    else if name == "CAP_IPC_OWNER" then 15
    else if name == "CAP_SYS_MODULE" then 16
    else if name == "CAP_SYS_RAWIO" then 17
    else if name == "CAP_SYS_CHROOT" then 18
    else if name == "CAP_SYS_PTRACE" then 19
    else if name == "CAP_SYS_PACCT" then 20
    else if name == "CAP_SYS_ADMIN" then 21
    else if name == "CAP_SYS_BOOT" then 22
    else if name == "CAP_SYS_NICE" then 23
    else if name == "CAP_SYS_RESOURCE" then 24
    else if name == "CAP_SYS_TIME" then 25
    else if name == "CAP_SYS_TTY_CONFIG" then 26
    else if name == "CAP_MKNOD" then 27
    else -1
  }

  function LastNames(name: string): int {
    if name == "CAP_LEASE" then 28
    else if name == "CAP_AUDIT_WRITE" then 29
    else if name == "CAP_AUDIT_CONTROL" then 30
    else if name == "CAP_SETFCAP" then 31
    else if name == "CAP_MAC_OVERRIDE" then 32
    else if name == "CAP_MAC_ADMIN" then 33
    else if name == "CAP_SYSLOG" then 34
    else if name == "CAP_WAKE_ALARM" then 35
    else if name == "CAP_BLOCK_SUSPEND" then 36
    else if name == "CAP_AUDIT_READ" then 37
    else if name == "CAP_PERFMON" then 38
    else if name == "CAP_BPF" then 39
    else if name == "CAP_CHECKPOINT_RESTORE" then 40
    else -1
  }

  /** -1 for an unknown name: callers must refuse. */
  function NameToBit(name: string): int {
    if FirstNames(name) >= 0 then FirstNames(name)
    else if MiddleNames(name) >= 0 then MiddleNames(name)
    else LastNames(name)
  }

  /** A number that tells the names apart. */
  function Mark(name: string): int {
    if |name| < 5 then 0
    else 3 * (name[4] as int) + 4 * (name[|name| - 3] as int) + 7 * (name[|name| - 4] as int)
  }

  function Unmark(m: int): int {
    match m
    case 1021 => 0
    case 1070 => 1
    case 987 => 2
    case 1131 => 3
    case 1029 => 4
    case 1042 => 5
    case 1121 => 6
    case 1177 => 7
    case 1077 => 8
    case 947 => 9
    case 1128 => 10
    case 963 => 11
    case 1018 => 12
    case 1227 => 13
    case 1067 => 14
    case 1140 => 15
    case 1065 => 16
    case 1052 => 17
    case 1139 => 18
    case 1083 => 19
    case 972 => 20
    case 1033 => 21
    case 1027 => 22
    case 1087 => 23
    case 1172 => 24
    case 1129 => 25
    case 1075 => 26
    case 1068 => 27
    case 971 => 28
    case 1061 => 29
    case 1111 => 30
    case 1007 => 31
    case 1097 => 32
    case 1015 => 33
    case 1134 => 34
    case 1053 => 35
    case 1034 => 36
    case 1045 => 37
    case 1038 => 38
    case 1127 => 39
    case 1105 => 40
    case _ => -1
  }


  lemma MarksTellApart0To10(b: int)
    requires 0 <= b <= 10
    ensures Unmark(Mark(BitToName(b))) == b
  {
  }

  lemma MarksTellApart11To20(b: int)
    requires 11 <= b <= 20
    ensures Unmark(Mark(BitToName(b))) == b
  {
  }

  lemma MarksTellApart21To30(b: int)
    requires 21 <= b <= 30
    ensures Unmark(Mark(BitToName(b))) == b
  {
  }

  lemma MarksTellApart31To40(b: int)
    requires 31 <= b <= 40
    ensures Unmark(Mark(BitToName(b))) == b
  {
  }

  lemma MarksTellApart(b: int)
    requires 0 <= b <= LAST_CAP
    ensures Unmark(Mark(BitToName(b))) == b
  {
    hide NameToBit, BitToName, Mark, Unmark;
    if b <= 10 { MarksTellApart0To10(b); }
    else if b <= 20 { MarksTellApart11To20(b); }
    else if b <= 30 { MarksTellApart21To30(b); }
    else { MarksTellApart31To40(b); }
  }

  lemma NameOfFirstNames(name: string)
    ensures -1 <= FirstNames(name) <= LAST_CAP
    ensures FirstNames(name) >= 0 ==> BitToName(FirstNames(name)) == name
  {
  }

  lemma NameOfMiddleNames(name: string)
    ensures -1 <= MiddleNames(name) <= LAST_CAP
    ensures MiddleNames(name) >= 0 ==> BitToName(MiddleNames(name)) == name
  {
  }

  lemma NameOfLastNames(name: string)
    ensures -1 <= LastNames(name) <= LAST_CAP
    ensures LastNames(name) >= 0 ==> BitToName(LastNames(name)) == name
  {
  }

  lemma NameOfBit(name: string)
    ensures -1 <= NameToBit(name) <= LAST_CAP
    ensures NameToBit(name) >= 0 ==> BitToName(NameToBit(name)) == name
  {
    hide FirstNames, MiddleNames, LastNames, BitToName;
    NameOfFirstNames(name);
    NameOfMiddleNames(name);
    NameOfLastNames(name);
  }

  lemma KnownFirstNames(b: int)
    requires 0 <= b < 14
    ensures FirstNames(BitToName(b)) >= 0
  {
  }

  lemma KnownMiddleNames(b: int)
    requires 14 <= b < 28
    ensures MiddleNames(BitToName(b)) >= 0
  {
  }

  lemma KnownLastNames(b: int)
    requires 28 <= b < 41
    ensures LastNames(BitToName(b)) >= 0
  {
  }

  lemma KnownName(b: int)
    requires 0 <= b <= LAST_CAP
    ensures NameToBit(BitToName(b)) >= 0
  {
    hide FirstNames, MiddleNames, LastNames, BitToName;
    if b < 14 { KnownFirstNames(b); }
    else if b < 28 { KnownMiddleNames(b); }
    else { KnownLastNames(b); }
  }

  /** The two tables are inverse to each other on the 41 capabilities. */
  lemma TablesInverse(b: int, name: string)
    ensures 0 <= b <= LAST_CAP ==> NameToBit(BitToName(b)) == b
    ensures NameToBit(name) >= 0 ==> BitToName(NameToBit(name)) == name
    ensures -1 <= NameToBit(name) <= LAST_CAP
  {
    hide NameToBit, BitToName, Mark, Unmark;
    NameOfBit(name);
    if 0 <= b <= LAST_CAP {
      KnownName(b);
      var c := NameToBit(BitToName(b));
      NameOfBit(BitToName(b));
      MarksTellApart(b);
      MarksTellApart(c);
    }
  }

  // ---- The kernel's numbers --------------------------------------------------------------

  /** The names of capabilities(7), in the order of the numbers that the kernel gives them from 0 on. */
  const KERNEL_NAMES := [
    "CAP_CHOWN", "CAP_DAC_OVERRIDE", "CAP_DAC_READ_SEARCH", "CAP_FOWNER", "CAP_FSETID", "CAP_KILL",
    "CAP_SETGID", "CAP_SETUID", "CAP_SETPCAP", "CAP_LINUX_IMMUTABLE", "CAP_NET_BIND_SERVICE",
    "CAP_NET_BROADCAST", "CAP_NET_ADMIN", "CAP_NET_RAW", "CAP_IPC_LOCK", "CAP_IPC_OWNER", "CAP_SYS_MODULE",
    "CAP_SYS_RAWIO", "CAP_SYS_CHROOT", "CAP_SYS_PTRACE", "CAP_SYS_PACCT", "CAP_SYS_ADMIN", "CAP_SYS_BOOT",
    "CAP_SYS_NICE", "CAP_SYS_RESOURCE", "CAP_SYS_TIME", "CAP_SYS_TTY_CONFIG", "CAP_MKNOD", "CAP_LEASE",
    "CAP_AUDIT_WRITE", "CAP_AUDIT_CONTROL", "CAP_SETFCAP", "CAP_MAC_OVERRIDE", "CAP_MAC_ADMIN", "CAP_SYSLOG",
    "CAP_WAKE_ALARM", "CAP_BLOCK_SUSPEND", "CAP_AUDIT_READ", "CAP_PERFMON", "CAP_BPF", "CAP_CHECKPOINT_RESTORE"
  ]

  lemma Numbered0To7(b: int)
    requires 0 <= b <= 7
    ensures BitToName(b) == KERNEL_NAMES[b]
  {
  }

  lemma Numbered8To14(b: int)
    requires 8 <= b <= 14
    ensures BitToName(b) == KERNEL_NAMES[b]
  {
  }

  lemma Numbered15To21(b: int)
    requires 15 <= b <= 21
    ensures BitToName(b) == KERNEL_NAMES[b]
  {
  }

  lemma Numbered22To28(b: int)
    requires 22 <= b <= 28
    ensures BitToName(b) == KERNEL_NAMES[b]
  {
  }

  lemma Numbered29To35(b: int)
    requires 29 <= b <= 35
    ensures BitToName(b) == KERNEL_NAMES[b]
  {
  }

  lemma Numbered36To40(b: int)
    requires 36 <= b <= 40
    ensures BitToName(b) == KERNEL_NAMES[b]
  {
  }

  /** Every capability has the kernel's number, and there are 41. */
  lemma NumberedLikeTheKernel(b: int, name: string)
    requires 0 <= b <= 40
    ensures |KERNEL_NAMES| == 41 && BitToName(b) == KERNEL_NAMES[b] && NameToBit(KERNEL_NAMES[b]) == b
    ensures NameToBit(name) >= 0 ==> NameToBit(name) <= 40 && name == KERNEL_NAMES[NameToBit(name)]
  {
    assert |KERNEL_NAMES| == 41;
    hide BitToName, NameToBit, KERNEL_NAMES;
    Numbered(b);
    TablesInverse(b, name);
    if NameToBit(name) >= 0 { Numbered(NameToBit(name)); }
  }

  lemma Numbered(b: int)
    requires 0 <= b <= 40
    ensures b < |KERNEL_NAMES| && BitToName(b) == KERNEL_NAMES[b]
  {
    assert |KERNEL_NAMES| == 41;
    hide BitToName, KERNEL_NAMES;
    if b <= 7 { Numbered0To7(b); }
    else if b <= 14 { Numbered8To14(b); }
    else if b <= 21 { Numbered15To21(b); }
    else if b <= 28 { Numbered22To28(b); }
    else if b <= 35 { Numbered29To35(b); }
    else { Numbered36To40(b); }
  }

  // ---- Masks -----------------------------------------------------------------------------

  /** Binary digit `c` of a mask: `(mask & (1 << c)) != 0`. */
  predicate Bit(m: nat, c: nat) {
    if c == 0 then m % 2 == 1 else Bit(m / 2, c - 1)
  }

  /** `mask | (1 << c)`. */
  function SetBit(m: nat, c: nat): nat {
    if c == 0 then (if m % 2 == 1 then m else m + 1) else 2 * SetBit(m / 2, c - 1) + m % 2
  }

  /** Digits below `k`: `mask & ((1 << k) - 1)`. */
  function Low(m: nat, k: nat): nat {
    if k == 0 then 0 else m % 2 + 2 * Low(m / 2, k - 1)
  }

  /** `mask >> k`. */
  function Shr(m: nat, k: nat): nat {
    if k == 0 then m else Shr(m / 2, k - 1)
  }

  /** `(hi << k) | lo`, for a `lo` below the split. */
  function Glue(hi: nat, lo: nat, k: nat): nat {
    if k == 0 then hi else lo % 2 + 2 * Glue(hi, lo / 2, k - 1)
  }

  /** No digits from `n` on. */
  predicate Fits(m: nat, n: nat) { Shr(m, n) == 0 }

  lemma {:induction false} SetBitBits(m: nat, b: nat, c: nat)
    ensures Bit(SetBit(m, b), c) <==> Bit(m, c) || b == c
  {
    if b > 0 && c > 0 {
      SetBitBits(m / 2, b - 1, c - 1);
    }
  }

  lemma {:induction false} SetBitFits(m: nat, b: nat, n: nat)
    requires Fits(m, n) && b < n
    ensures Fits(SetBit(m, b), n)
  {
    if b > 0 {
      SetBitFits(m / 2, b - 1, n - 1);
      assert SetBit(m, b) / 2 == SetBit(m / 2, b - 1);
    } else {
      assert SetBit(m, b) / 2 == m / 2;
    }
  }

  lemma {:induction false} ZeroBits(c: nat)
    ensures !Bit(0, c) && Shr(0, c) == 0
  {
    if c > 0 { ZeroBits(c - 1); }
  }

  /** A mask is determined by its digits. */
  lemma {:induction false} BitsDetermine(m: nat, m': nat, n: nat)
    requires Fits(m, n) && Fits(m', n)
    requires forall c: nat :: c < n ==> (Bit(m, c) <==> Bit(m', c))
    ensures m == m'
  {
    if n > 0 {
      assert Bit(m, 0) <==> Bit(m', 0);
      forall c: nat | c < n - 1 ensures Bit(m / 2, c) <==> Bit(m' / 2, c) {
        assert Bit(m, c + 1) <==> Bit(m', c + 1);
      }
      BitsDetermine(m / 2, m' / 2, n - 1);
    }
  }

  lemma {:induction false} SplitBits(m: nat, k: nat, c: nat)
    ensures Bit(Low(m, k), c) <==> c < k && Bit(m, c)
    ensures Bit(Shr(m, k), c) <==> Bit(m, c + k)
  {
    if k == 0 {
      ZeroBits(c);
    } else {
      assert Low(m, k) / 2 == Low(m / 2, k - 1);
      if c > 0 { SplitBits(m / 2, k - 1, c - 1); }
      SplitBits(m / 2, k - 1, c);
    }
  }

  lemma {:induction false} GlueBits(hi: nat, lo: nat, k: nat, c: nat)
    ensures Bit(Glue(hi, lo, k), c) <==> if c < k then Bit(lo, c) else Bit(hi, c - k)
  {
    if k > 0 && c > 0 {
      assert Glue(hi, lo, k) / 2 == Glue(hi, lo / 2, k - 1);
      GlueBits(hi, lo / 2, k - 1, c - 1);
    }
  }

  lemma {:induction false} GlueSplit(m: nat, k: nat)
    ensures Glue(Shr(m, k), Low(m, k), k) == m
  {
    if k > 0 {
      assert Low(m, k) / 2 == Low(m / 2, k - 1);
      GlueSplit(m / 2, k - 1);
    }
  }

  function MaskLo(m: nat): nat { Low(m, 32) }

  function MaskHi(m: nat): nat { Low(Shr(m, 32), 32) }

  lemma {:induction false} ShrAdd(m: nat, a: nat, b: nat)
    ensures Shr(m, a + b) == Shr(Shr(m, a), b)
  {
    if a > 0 { ShrAdd(m / 2, a - 1, b); }
  }

  lemma {:induction false} LowOfSmall(m: nat, k: nat)
    requires Fits(m, k)
    ensures Low(m, k) == m
  {
    if k > 0 { LowOfSmall(m / 2, k - 1); }
  }

  lemma {:induction false} FitsMonotone(m: nat, a: nat, b: nat)
    requires Fits(m, a) && a <= b
    ensures Fits(m, b)
  {
    ShrAdd(m, a, b - a);
    ZeroBits(b - a);
  }

  /** The two 32-bit words that capset(2) takes hold the whole mask. */
  lemma WordsRestoreMask(m: nat)
    requires Fits(m, 64)
    ensures Glue(MaskHi(m), MaskLo(m), 32) == m
  {
    ShrAdd(m, 32, 32);
    LowOfSmall(Shr(m, 32), 32);
    GlueSplit(m, 32);
  }

  // ---- Name lists ------------------------------------------------------------------------

  predicate AllKnown(names: seq<string>) {
    forall x :: x in names ==> NameToBit(x) >= 0
  }

  predicate Named(names: seq<string>, c: nat) {
    exists x :: x in names && NameToBit(x) == c
  }

  /** The mask that a name list denotes; -1 when it holds an unknown name. */
  predicate Denotes(names: seq<string>, mask: int) {
    if AllKnown(names) then
      mask >= 0 && Fits(mask, LAST_CAP + 1) && forall c: nat :: c <= LAST_CAP ==> (Bit(mask, c) <==> Named(names, c))
    else mask == -1
  }

  method ParseSet(names: seq<string>) returns (mask: int)
    ensures Denotes(names, mask)
  {
    hide NameToBit;
    var m: nat := 0;
    var i := 0;
    ZeroBits(LAST_CAP + 1);
    forall c: nat ensures !Bit(0, c) { ZeroBits(c); }
    while i < |names|
      invariant 0 <= i <= |names| && Fits(m, LAST_CAP + 1)
      invariant forall j :: 0 <= j < i ==> NameToBit(names[j]) >= 0
      invariant forall c: nat :: c <= LAST_CAP ==>
                  (Bit(m, c) <==> exists j :: 0 <= j < i && NameToBit(names[j]) == c)
    {
      var bit := NameToBit(names[i]);
      NameOfBit(names[i]);
      if bit < 0 {
        assert names[i] in names;
        return -1;
      }
      forall c: nat ensures Bit(SetBit(m, bit), c) <==> Bit(m, c) || bit == c { SetBitBits(m, bit, c); }
      SetBitFits(m, bit, LAST_CAP + 1);
      m := SetBit(m, bit);
      i := i + 1;
    }
    mask := m;
  }

  /** The mask depends only on the set of names. */
  lemma MaskDependsOnSet(a: seq<string>, b: seq<string>, m: int, m': int)
    requires (forall x :: x in a <==> x in b) && Denotes(a, m) && Denotes(b, m')
    ensures m == m'
  {
    hide NameToBit;
    assert AllKnown(a) <==> AllKnown(b);
    if AllKnown(a) {
      forall c: nat | c <= LAST_CAP ensures Bit(m, c) <==> Bit(m', c) {
        assert Named(a, c) <==> Named(b, c);
      }
      BitsDetermine(m, m', LAST_CAP + 1);
    }
  }

  // ---- Describing a mask -----------------------------------------------------------------

  function NamesFrom(m: nat, c: nat): seq<string>
    decreases LAST_CAP + 1 - c
  {
    if c > LAST_CAP then []
    else (if Bit(m, c) then [BitToName(c)] else []) + NamesFrom(m, c + 1)
  }

  lemma NamesStep(m: nat, c: nat, done: seq<string>)
    requires c <= LAST_CAP
    ensures done + NamesFrom(m, c) ==
              (if Bit(m, c) then done + [BitToName(c)] else done) + NamesFrom(m, c + 1)
  {
    hide BitToName, Bit;
  }

  method Describe(m: nat) returns (s: string)
    ensures s == if m == 0 then "ALL" else JoinBy(NamesFrom(m, 0), ',')
  {
    hide BitToName, Bit, JoinBy, NamesFrom;
    if m == 0 { return "ALL"; }
    s := "";
    var first, c := true, 0;
    ghost var done: seq<string> := [];
    assert JoinBy([], ',') == "" by { EmptyJoin(); }
    while c <= LAST_CAP
      invariant 0 <= c <= LAST_CAP + 1
      invariant done + NamesFrom(m, c) == NamesFrom(m, 0)
      invariant s == JoinBy(done, ',') && first == (done == [])
    {
      NamesStep(m, c, done);
      if Bit(m, c) {
        JoinSnoc(done, ',', BitToName(c));
        if !first { s := s + ","; }
        s := s + BitToName(c);
        first := false;
        done := done + [BitToName(c)];
      }
      c := c + 1;
    }
    NamesEnd(m, c);
    assert done + [] == done;
  }

  lemma EmptyJoin()
    ensures JoinBy([], ',') == ""
  {
  }

  lemma NamesEnd(m: nat, c: nat)
    requires c > LAST_CAP
    ensures NamesFrom(m, c) == []
  {
  }

  lemma {:induction false} NamesFromAre(m: nat, c: nat, x: string)
    requires c <= LAST_CAP + 1
    ensures x in NamesFrom(m, c) <==> exists b: nat :: c <= b <= LAST_CAP && Bit(m, b) && x == BitToName(b)
    decreases LAST_CAP + 1 - c
  {
    hide BitToName, Bit;
    if c <= LAST_CAP {
      NamesFromAre(m, c + 1, x);
      if b: nat :| c <= b <= LAST_CAP && Bit(m, b) && x == BitToName(b) {
        if b > c { assert x in NamesFrom(m, c + 1); }
      }
    }
  }

  /** The names come in the order of their numbers. */
  lemma {:induction false} NamesInOrder(m: nat, c: nat, i: nat, j: nat)
    requires i < j < |NamesFrom(m, c)|
    ensures NameToBit(NamesFrom(m, c)[i]) < NameToBit(NamesFrom(m, c)[j])
    decreases LAST_CAP + 1 - c
  {
    hide NameToBit, BitToName, Bit;
    var names, rest := NamesFrom(m, c), NamesFrom(m, c + 1);
    if !Bit(m, c) {
      assert names == rest;
      NamesInOrder(m, c + 1, i, j);
    } else if i > 0 {
      assert names[i] == rest[i - 1] && names[j] == rest[j - 1];
      NamesInOrder(m, c + 1, i - 1, j - 1);
    } else {
      assert names[j] == rest[j - 1];
      NamesFromAre(m, c + 1, names[j]);
      var b: nat :| c + 1 <= b <= LAST_CAP && names[j] == BitToName(b);
      TablesInverse(b, "");
      TablesInverse(c, "");
    }
  }

  lemma NoComma0To10(b: int)
    requires 0 <= b <= 10
    ensures ',' !in BitToName(b)
  {
  }

  lemma NoComma11To20(b: int)
    requires 11 <= b <= 20
    ensures ',' !in BitToName(b)
  {
  }

  lemma NoComma21To30(b: int)
    requires 21 <= b <= 30
    ensures ',' !in BitToName(b)
  {
  }

  lemma NoComma31To40(b: int)
    requires 31 <= b <= 40
    ensures ',' !in BitToName(b)
  {
  }

  lemma NoComma(b: int)
    requires 0 <= b <= LAST_CAP
    ensures ',' !in BitToName(b)
  {
    hide BitToName;
    if b <= 10 { NoComma0To10(b); }
    else if b <= 20 { NoComma11To20(b); }
    else if b <= 30 { NoComma21To30(b); }
    else { NoComma31To40(b); }
  }

  /** The audit text reads back: splitting the description of a nonzero mask at its commas and
      folding the names gives the mask again. */
  lemma DescriptionReadsBack(m: nat)
    requires m != 0 && Fits(m, LAST_CAP + 1)
    ensures Denotes(SplitBy(JoinBy(NamesFrom(m, 0), ','), ','), m)
  {
    hide NameToBit, BitToName, Bit, JoinBy, SplitBy, NamesFrom;
    var names := NamesFrom(m, 0);
    forall x | x in names ensures ',' !in x && NameToBit(x) >= 0 {
      NamesFromAre(m, 0, x);
      var b: nat :| b <= LAST_CAP && Bit(m, b) && x == BitToName(b);
      NoComma(b);
      TablesInverse(b, x);
    }
    forall c: nat | c <= LAST_CAP ensures Bit(m, c) <==> Named(names, c) {
      NamesFromAre(m, 0, BitToName(c));
      TablesInverse(c, "");
      if Bit(m, c) { assert BitToName(c) in names; }
      if x :| x in names && NameToBit(x) == c {
        NamesFromAre(m, 0, x);
        var b: nat :| b <= LAST_CAP && Bit(m, b) && x == BitToName(b);
        TablesInverse(b, x);
      }
    }
    assert names != [] by {
      if names == [] {
        forall c: nat | c < LAST_CAP + 1 ensures Bit(m, c) <==> Bit(0, c) { ZeroBits(c); assert !Named(names, c); }
        ZeroBits(LAST_CAP + 1);
        BitsDetermine(m, 0, LAST_CAP + 1);
      }
    }
    SplitJoin(names, ',');
  }
}
