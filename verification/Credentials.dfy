/** Kernel credentials as described in capabilities(7): what each system call of the privilege drop
    does to them, a process on which any call may fail or claim success without effect, and the
    drop itself. */
module Credentials {
  import opened Text
  import opened Caps

  type Cap = c: nat | c < 64
  type CapSet = set<Cap>

  const CAP_SETGID: Cap := 6
  const CAP_SETUID: Cap := 7
  const CAP_SETPCAP: Cap := 8

  datatype Creds = Creds(
    ruid: nat, euid: nat, suid: nat, rgid: nat, egid: nat, sgid: nat, groups: seq<nat>,
    permitted: CapSet, effective: CapSet, inheritable: CapSet, bounding: CapSet, ambient: CapSet,
    keepCaps: bool)

  // ---- System calls ----------------------------------------------------------------------

  /** Effect of user ID changes on capabilities. */
  function AfterUidChange(was: Creds, now: Creds): Creds {
    var hadRoot := was.ruid == 0 || was.euid == 0 || was.suid == 0;
    var hasRoot := now.ruid == 0 || now.euid == 0 || now.suid == 0;
    var c := if hadRoot && !hasRoot then
               if now.keepCaps then now.(ambient := {})
               else now.(permitted := {}, effective := {}, ambient := {})
             else now;
    if was.euid == 0 && now.euid != 0 then c.(effective := {})
    else if was.euid != 0 && now.euid == 0 then c.(effective := c.permitted)
    else c
  }

  function SetUid(c: Creds, uid: nat): Option<Creds> {
    if CAP_SETUID in c.effective then Some(AfterUidChange(c, c.(ruid := uid, euid := uid, suid := uid)))
    else if uid == c.ruid || uid == c.suid then Some(AfterUidChange(c, c.(euid := uid)))
    else None
  }

  function SetGid(c: Creds, gid: nat): Option<Creds> {
    if CAP_SETGID in c.effective then Some(c.(rgid := gid, egid := gid, sgid := gid))
    else if gid == c.rgid || gid == c.sgid then Some(c.(egid := gid))
    else None
  }

  function SetGroups(c: Creds, gids: seq<nat>): Option<Creds> {
    if CAP_SETGID in c.effective then Some(c.(groups := gids)) else None
  }

  function KeepCaps(c: Creds, on: bool): Option<Creds> { Some(c.(keepCaps := on)) }

  function BoundingDrop(c: Creds, lastCap: Cap, cap: Cap): Option<Creds> {
    if CAP_SETPCAP in c.effective && cap <= lastCap then Some(c.(bounding := c.bounding - {cap})) else None
  }

  function AmbientRaise(c: Creds, lastCap: Cap, cap: Cap): Option<Creds> {
    if cap <= lastCap && cap in c.permitted && cap in c.inheritable then Some(c.(ambient := c.ambient + {cap}))
    else None
  }

  function CapSetCall(c: Creds, eff: CapSet, per: CapSet, inh: CapSet): Option<Creds> {
    if && (CAP_SETPCAP in c.effective || inh <= c.inheritable + c.permitted)
       && inh <= c.inheritable + c.bounding
       && per <= c.permitted
       && eff <= per
    then Some(c.(effective := eff, permitted := per, inheritable := inh, ambient := c.ambient * per * inh))
    else None
  }

  /** Transformation of capabilities during execve() of an ordinary file: no set-user-ID bit and no
      file capabilities. */
  function Execve(c: Creds): Creds {
    var permitted := if c.ruid == 0 || c.euid == 0 then c.inheritable + c.bounding + c.ambient else c.ambient;
    var effective := if c.euid == 0 then permitted else c.ambient;
    c.(permitted := permitted, effective := effective, keepCaps := false)
  }

  // ---- A process whose system calls may misbehave ----------------------------------------

  /** How the next system call behaves: as specified, failing, or claiming success with no effect. */
  datatype Fault = Honest | Fails | Lies

  function Next(script: seq<Fault>): Fault { if script == [] then Honest else script[0] }

  function Later(script: seq<Fault>): seq<Fault> { if script == [] then [] else script[1..] }

  predicate AllHonest(script: seq<Fault>) { forall f :: f in script ==> f.Honest? }

  lemma HonestNext(script: seq<Fault>)
    ensures AllHonest(script) ==> Next(script).Honest? && AllHonest(Later(script))
  {
  }

  /** Calls may fail, but none claims success without effect. */
  predicate Truthful(script: seq<Fault>) { forall f :: f in script ==> !f.Lies? }

  lemma TruthfulNext(script: seq<Fault>)
    ensures Truthful(script) ==> !Next(script).Lies? && Truthful(Later(script))
    ensures AllHonest(script) ==> Truthful(script)
  {
  }

  function Outcome(was: Creds, next: Option<Creds>, f: Fault): Creds {
    if f.Honest? && next.Some? then next.value else was
  }

  predicate Succeeds(next: Option<Creds>, f: Fault) { f.Lies? || (f.Honest? && next.Some?) }

  class Process {
    const lastCap: Cap
    var creds: Creds
    var script: seq<Fault>

    constructor (lastCap: Cap, creds: Creds, script: seq<Fault>)
      ensures this.lastCap == lastCap && this.creds == creds && this.script == script
    {
      this.lastCap, this.creds, this.script := lastCap, creds, script;
    }

    method Call(next: Option<Creds>) returns (r: int)
      modifies this
      ensures creds == Outcome(old(creds), next, Next(old(script)))
      ensures r == if Succeeds(next, Next(old(script))) then 0 else -1
      ensures script == Later(old(script))
    {
      var f := Next(script);
      script := Later(script);
      match f
      case Honest =>
        if next.Some? { creds := next.value; return 0; }
        return -1;
      case Fails => return -1;
      case Lies => return 0;
    }
  }

  // ---- Capability words ------------------------------------------------------------------

  function CapsOf(mask: nat): CapSet {
    set c: Cap | 0 <= c <= LAST_CAP && Bit(mask, c)
  }

  /** The set of a name list holds exactly the kernel numbers of its names. */
  lemma NamesGiveTheirNumbers(names: seq<string>, mask: nat, c: Cap)
    requires Denotes(names, mask)
    ensures c in CapsOf(mask) <==> c <= 40 && |KERNEL_NAMES| == 41 && KERNEL_NAMES[c] in names
  {
    assert |KERNEL_NAMES| == 41;
    hide NameToBit, Bit, KERNEL_NAMES, Fits;
    if c <= 40 {
      NumberedLikeTheKernel(c, "");
      assert Bit(mask, c) <==> Named(names, c);
      if x :| x in names && NameToBit(x) == c { NumberedLikeTheKernel(c, x); }
    }
  }

  /** The capabilities that the drop itself needs. */
  lemma NumbersOfTheDrop()
    ensures NameToBit("CAP_SETGID") == CAP_SETGID && NameToBit("CAP_SETUID") == CAP_SETUID
    ensures NameToBit("CAP_SETPCAP") == CAP_SETPCAP
  {
    assert KERNEL_NAMES[6] == "CAP_SETGID" && KERNEL_NAMES[7] == "CAP_SETUID" && KERNEL_NAMES[8] == "CAP_SETPCAP";
    hide NameToBit;
    NumberedLikeTheKernel(6, "");
    NumberedLikeTheKernel(7, "");
    NumberedLikeTheKernel(8, "");
  }

  /** The set that a low and a high 32-bit word denote. */
  function SetOfWords(lo: nat, hi: nat): CapSet {
    set c: Cap | 0 <= c < 64 && if c < 32 then Bit(lo, c) else Bit(hi, c - 32)
  }

  /** The word of `n` digits that holds the capabilities from `base` on. */
  function WordOf(s: CapSet, base: nat, n: nat): nat
    requires base + n <= 64
    decreases n
  {
    if n == 0 then 0 else (if base in s then 1 else 0) + 2 * WordOf(s, base + 1, n - 1)
  }

  lemma {:induction false} WordBits(s: CapSet, base: nat, n: nat, c: nat)
    requires base + n <= 64
    ensures Bit(WordOf(s, base, n), c) <==> c < n && base + c in s
    decreases n
  {
    if n == 0 {
      ZeroBits(c);
    } else if c > 0 {
      WordBits(s, base + 1, n - 1, c - 1);
    }
  }

  lemma {:induction false} WordFits(s: CapSet, base: nat, n: nat)
    requires base + n <= 64
    ensures Fits(WordOf(s, base, n), n)
    decreases n
  {
    if n > 0 { WordFits(s, base + 1, n - 1); }
  }

  lemma FitsBits(mask: nat, n: nat, c: nat)
    requires Fits(mask, n) && c >= n
    ensures !Bit(mask, c)
  {
    SplitBits(mask, n, c - n);
    ZeroBits(c - n);
  }

  lemma WordsOfMask(mask: nat)
    requires Fits(mask, LAST_CAP + 1)
    ensures SetOfWords(MaskLo(mask), MaskHi(mask)) == CapsOf(mask)
  {
    hide Bit;
    forall c: Cap ensures c in SetOfWords(MaskLo(mask), MaskHi(mask)) <==> c in CapsOf(mask) {
      if c < 32 {
        SplitBits(mask, 32, c);
      } else {
        SplitBits(Shr(mask, 32), 32, c - 32);
        SplitBits(mask, 32, c - 32);
        if c > LAST_CAP { FitsBits(mask, LAST_CAP + 1, c); }
      }
    }
  }

  function ObservedMask(s: CapSet): nat {
    Glue(WordOf(s, 32, 32), WordOf(s, 0, 32), 32)
  }

  lemma ObservedBits(s: CapSet, c: nat)
    ensures Bit(ObservedMask(s), c) <==> c < 64 && c in s
  {
    hide Bit, WordOf;
    GlueBits(WordOf(s, 32, 32), WordOf(s, 0, 32), 32, c);
    if c < 32 { WordBits(s, 0, 32, c); } else { WordBits(s, 32, 32, c - 32); }
  }

  lemma {:induction false} GlueFits(hi: nat, lo: nat, k: nat, n: nat)
    requires Fits(hi, n)
    ensures Fits(Glue(hi, lo, k), k + n)
  {
    if k > 0 {
      GlueFits(hi, lo / 2, k - 1, n);
      assert Glue(hi, lo, k) / 2 == Glue(hi, lo / 2, k - 1);
    }
  }

  /** Reading the effective set back gives the mask exactly when the set is the mask's set. */
  lemma ObservedIsMask(s: CapSet, mask: nat)
    requires Fits(mask, LAST_CAP + 1)
    ensures ObservedMask(s) == mask <==> s == CapsOf(mask)
  {
    hide Bit, ObservedMask;
    forall c: nat ensures Bit(ObservedMask(s), c) <==> c < 64 && c in s { ObservedBits(s, c); }
    if ObservedMask(s) == mask {
      forall c: Cap ensures c in s <==> c in CapsOf(mask) {
        if c > LAST_CAP { FitsBits(mask, LAST_CAP + 1, c); }
      }
    }
    if s == CapsOf(mask) {
      forall c: nat | c < 64 ensures Bit(ObservedMask(s), c) <==> Bit(mask, c) {
        if c > LAST_CAP { FitsBits(mask, LAST_CAP + 1, c); }
      }
      ObservedFits(s);
      FitsMonotone(mask, LAST_CAP + 1, 64);
      BitsDetermine(ObservedMask(s), mask, 64);
    }
  }

  lemma ObservedFits(s: CapSet)
    ensures Fits(ObservedMask(s), 64)
  {
    WordFits(s, 32, 32);
    GlueFits(WordOf(s, 32, 32), WordOf(s, 0, 32), 32, 32);
  }

  // ---- The capability calls of the drop --------------------------------------------------

  function Narrowed(bounding: CapSet, mask: nat, upTo: nat): CapSet {
    set c: Cap | c in bounding && (Bit(mask, c) || c >= upTo)
  }

  lemma NarrowedStep(bounding: CapSet, mask: nat, c: nat)
    requires c < 64
    ensures Narrowed(bounding, mask, c + 1) ==
              if Bit(mask, c) then Narrowed(bounding, mask, c) else Narrowed(bounding, mask, c) - {c}
  {
    hide Bit;
  }

  /** Every capability that the kernel does not know but the table does is in the mask. */
  ghost predicate Covers(mask: nat, lastCap: Cap) {
    forall c: nat :: lastCap < c <= LAST_CAP ==> Bit(mask, c)
  }

  method BoundingDropComplement(p: Process, mask: nat) returns (r: int)
    modifies p
    ensures r == 0 || r == -1
    ensures p.creds == old(p.creds).(bounding := p.creds.bounding)
    ensures AllHonest(old(p.script)) ==> AllHonest(p.script)
    ensures AllHonest(old(p.script)) && CAP_SETPCAP in old(p.creds).effective ==>
              (r == 0 <==> Covers(mask, p.lastCap))
    ensures Truthful(old(p.script)) ==> Truthful(p.script)
    ensures Truthful(old(p.script)) && r == 0 ==>
              && Covers(mask, p.lastCap)
              && p.creds.bounding == Narrowed(old(p.creds).bounding, mask, LAST_CAP + 1)
  {
    var c := 0;
    assert p.creds.bounding == Narrowed(old(p.creds).bounding, mask, 0);
    TruthfulNext(p.script);
    hide Bit, Narrowed, AllHonest, Truthful, Next, Later;
    while c <= LAST_CAP
      invariant 0 <= c <= LAST_CAP + 1
      invariant p.creds == old(p.creds).(bounding := p.creds.bounding)
      invariant AllHonest(old(p.script)) ==> AllHonest(p.script)
      invariant Truthful(old(p.script)) ==> Truthful(p.script)
      invariant Truthful(old(p.script)) ==> p.creds.bounding == Narrowed(old(p.creds).bounding, mask, c)
      invariant Truthful(old(p.script)) ==> forall b: nat :: p.lastCap < b < c ==> Bit(mask, b)
    {
      if !Bit(mask, c) {
        HonestNext(p.script);
        TruthfulNext(p.script);
        r := p.Call(BoundingDrop(p.creds, p.lastCap, c));
        if r < 0 {
          if AllHonest(old(p.script)) && CAP_SETPCAP in old(p.creds).effective {
            assert p.lastCap < c <= LAST_CAP && !Bit(mask, c);
            assert !Covers(mask, p.lastCap);
          }
          return;
        }
      }
      NarrowedStep(old(p.creds).bounding, mask, c);
      c := c + 1;
    }
    r := 0;
  }

  method CapSetMask(p: Process, mask: nat) returns (r: int)
    requires Fits(mask, LAST_CAP + 1)
    modifies p
    ensures var m := CapsOf(mask);
            var next := CapSetCall(old(p.creds), m, m, m);
            && p.creds == Outcome(old(p.creds), next, Next(old(p.script)))
            && r == if Succeeds(next, Next(old(p.script))) then 0 else -1
    ensures p.script == Later(old(p.script))
  {
    var lo, hi := MaskLo(mask), MaskHi(mask);
    // effective, permitted, inheritable for capabilities 0..31, then the same for 32..63
    var data := new nat[6];
    data[0], data[1], data[2] := lo, lo, lo;
    data[3], data[4], data[5] := hi, hi, hi;
    WordsOfMask(mask);
    r := p.Call(CapSetCall(p.creds, SetOfWords(data[0], data[3]), SetOfWords(data[1], data[4]),
                           SetOfWords(data[2], data[5])));
  }

  method AmbientRaiseSet(p: Process, mask: nat) returns (r: int)
    modifies p
    ensures p.creds == old(p.creds).(ambient := p.creds.ambient)
    ensures && AllHonest(old(p.script)) && p.lastCap >= LAST_CAP
            && CapsOf(mask) <= old(p.creds).permitted * old(p.creds).inheritable ==>
              r == 0 && AllHonest(p.script)
    ensures Truthful(old(p.script)) && r == 0 ==> p.creds.ambient == old(p.creds).ambient + CapsOf(mask)
    ensures r == 0 || r == -1
  {
    hide Bit, AllHonest, Truthful, Next, Later;
    ghost var good := && AllHonest(p.script) && p.lastCap >= LAST_CAP
                      && CapsOf(mask) <= p.creds.permitted * p.creds.inheritable;
    var c := 0;
    while c <= LAST_CAP
      invariant 0 <= c <= LAST_CAP + 1
      invariant p.creds == old(p.creds).(ambient := p.creds.ambient)
      invariant good ==> AllHonest(p.script)
      invariant Truthful(old(p.script)) ==> Truthful(p.script)
      invariant Truthful(old(p.script)) ==>
                  p.creds.ambient == old(p.creds).ambient + set b: Cap | b in CapsOf(mask) && b < c
    {
      if Bit(mask, c) {
        assert c in CapsOf(mask);
        HonestNext(p.script);
        TruthfulNext(p.script);
        r := p.Call(AmbientRaise(p.creds, p.lastCap, c));
        if r < 0 { return; }
      }
      c := c + 1;
    }
    r := 0;
  }

  /** capget(2): -1 when the call fails, otherwise the effective set as a mask.  What it reads is
      trusted, as are getuid(2) and getgid(2): they are the observations that the drop is judged by. */
  method CapGetEffective(p: Process) returns (m: int)
    modifies p`script
    ensures p.script == Later(old(p.script))
    ensures m == if Next(old(p.script)).Fails? then -1 else ObservedMask(p.creds.effective)
  {
    var f := Next(p.script);
    p.script := Later(p.script);
    if f.Fails? { return -1; }
    var lo, hi := WordOf(p.creds.effective, 0, 32), WordOf(p.creds.effective, 32, 32);
    m := Glue(hi, lo, 32);
  }
}
