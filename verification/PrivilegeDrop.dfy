/** The privilege drop before execve: what it guarantees when any call may misbehave, and the exact
    credentials it leaves behind on a kernel that behaves. */
module PrivilegeDrop {
  import opened Caps
  import opened Credentials

  /** Full capability sets: every capability the kernel knows. */
  function Full(lastCap: Cap): CapSet {
    set c: Cap | 0 <= c < 64 && Known(c, lastCap)
  }

  predicate Known(c: Cap, lastCap: Cap) { c <= lastCap }

  /** Capabilities of a newer kernel that the table does not name. */
  function Beyond(lastCap: Cap): CapSet {
    set c: Cap | 0 <= c < 64 && Known(c, lastCap) && c > LAST_CAP
  }

  /** Where the drop starts: effective user root with full sets, on a kernel of any age.  The real user
      may be anyone, as in a set-user-ID program. */
  predicate RootWithFullSets(c: Creds, lastCap: Cap) {
    && c.euid == 0 && !c.keepCaps && lastCap >= CAP_SETPCAP
    && c.permitted == c.effective == c.bounding == Full(lastCap)
  }

  /** The credentials after an undisturbed drop. */
  function Dropped(c: Creds, gids: seq<nat>, uid: nat, gid: nat, mask: nat): Creds {
    var ids := c.(ruid := uid, euid := uid, suid := uid, rgid := gid, egid := gid, sgid := gid, groups := gids);
    if mask != 0 then
      var m := CapsOf(mask);
      ids.(permitted := m, effective := m, inheritable := m, ambient := m,
           bounding := Narrowed(c.bounding, mask, LAST_CAP + 1), keepCaps := true)
    else if uid == 0 then ids
    else ids.(permitted := {}, effective := {}, ambient := {})
  }

  /** A capability drop needs a kernel that knows the whole table; a full one does not. */
  predicate CanDrop(lastCap: Cap, mask: nat) { mask == 0 || lastCap >= LAST_CAP }

  /** The second half of a capability drop: capset, ambient raise and the check of the result. */
  method TakeCapabilities(p: Process, mask: nat) returns (ok: bool)
    requires Fits(mask, LAST_CAP + 1)
    modifies p
    ensures p.creds.ruid == old(p.creds).ruid && p.creds.rgid == old(p.creds).rgid
    ensures ok ==> p.creds.effective == CapsOf(mask)
    ensures var m := CapsOf(mask);
            var next := CapSetCall(old(p.creds), m, m, m);
            && (AllHonest(old(p.script)) && p.lastCap >= LAST_CAP && next.Some? ==>
                  ok && p.creds == next.value.(ambient := next.value.ambient + m))
            && (Truthful(old(p.script)) && ok ==>
                  next.Some? && p.creds == next.value.(ambient := next.value.ambient + m))
  {
    hide Fits, CapsOf, AllHonest, Truthful, Next, Later;
    ghost var m := CapsOf(mask);
    assert m * m == m;
    HonestNext(p.script);
    TruthfulNext(p.script);
    var r := CapSetMask(p, mask);
    if r < 0 { return false; }
    r := AmbientRaiseSet(p, mask);
    if r < 0 { return false; }
    HonestNext(p.script);
    TruthfulNext(p.script);
    var observed := CapGetEffective(p);
    ObservedIsMask(p.creds.effective, mask);
    ok := observed == mask;
  }

  /** `_drop_privileges`; `false` stands for the hard exit that every failed step takes. */
  method DropPrivileges(p: Process, gids: seq<nat>, uid: nat, gid: nat, mask: nat) returns (ok: bool)
    requires Fits(mask, LAST_CAP + 1)
    modifies p
    ensures ok ==> p.creds.ruid == uid && p.creds.rgid == gid
    ensures ok && mask != 0 ==> p.creds.effective == CapsOf(mask)
    ensures Truthful(old(p.script)) && ok ==> p.creds.groups == gids
    ensures Truthful(old(p.script)) && RootWithFullSets(old(p.creds), p.lastCap) && ok ==>
              p.creds == Dropped(old(p.creds), gids, uid, gid, mask)
    ensures AllHonest(old(p.script)) && RootWithFullSets(old(p.creds), p.lastCap) ==>
              (ok <==> CanDrop(p.lastCap, mask))
  {
    TruthfulNext(p.script);
    hide Fits, CapsOf, Narrowed, CapSetCall, AllHonest, Truthful, Next, Later, Covers;
    FullHas(p.lastCap);
    hide Full;
    ghost var c0 := p.creds;
    ghost var root := RootWithFullSets(p.creds, p.lastCap);
    ghost var truthful, good := Truthful(p.script) && root, AllHonest(p.script) && root;
    if mask != 0 {
      BitsAbove(mask);
      var r := BoundingDropComplement(p, mask);
      if r < 0 { return false; }
      HonestNext(p.script);
      TruthfulNext(p.script);
      r := p.Call(KeepCaps(p.creds, true));
      if r < 0 { return false; }
    }
    ghost var c1 := if mask != 0 then c0.(bounding := Narrowed(c0.bounding, mask, LAST_CAP + 1), keepCaps := true)
                    else c0;
    assert good ==> AllHonest(p.script);
    assert truthful ==> p.creds == c1 && Truthful(p.script) && (mask != 0 ==> Covers(mask, p.lastCap));
    HonestNext(p.script);
    TruthfulNext(p.script);
    var r := p.Call(SetGroups(p.creds, gids));
    if r < 0 { return false; }
    HonestNext(p.script);
    TruthfulNext(p.script);
    r := p.Call(SetGid(p.creds, gid));
    if r < 0 { return false; }
    HonestNext(p.script);
    TruthfulNext(p.script);
    r := p.Call(SetUid(p.creds, uid));
    if r < 0 { return false; }
    if p.creds.ruid != uid { return false; }
    if p.creds.rgid != gid { return false; }
    ghost var c2 := UserChanged(c1, gids, uid, gid);
    assert good ==> AllHonest(p.script);
    assert truthful ==> p.creds == c2 && Truthful(p.script);
    if mask != 0 {
      if truthful {
        if p.lastCap >= LAST_CAP { CapSetAllowed(c0, c1, c2, gids, uid, gid, p.lastCap, mask); }
        else { CapSetRefused(c2, p.lastCap, mask); }
      }
      ok := TakeCapabilities(p, mask);
      return;
    }
    ok := true;
  }

  lemma FullHas(lastCap: Cap)
    ensures lastCap >= CAP_SETPCAP ==> {CAP_SETGID, CAP_SETUID, CAP_SETPCAP} <= Full(lastCap)
  {
    assert forall c: Cap :: c <= lastCap ==> Known(c, lastCap);
  }

  function UserChanged(c: Creds, gids: seq<nat>, uid: nat, gid: nat): Creds {
    var ids := c.(groups := gids, rgid := gid, egid := gid, sgid := gid);
    AfterUidChange(ids, ids.(ruid := uid, euid := uid, suid := uid))
  }

  lemma BitsAbove(mask: nat)
    requires Fits(mask, LAST_CAP + 1)
    ensures forall c: nat :: c > LAST_CAP ==> !Bit(mask, c)
  {
    forall c: nat | c > LAST_CAP ensures !Bit(mask, c) { FitsBits(mask, LAST_CAP + 1, c); }
  }

  /** With the permitted set kept across the user change, the requested sets are within reach. */
  lemma CapSetAllowed(c0: Creds, c1: Creds, c2: Creds, gids: seq<nat>, uid: nat, gid: nat, lastCap: Cap, mask: nat)
    requires RootWithFullSets(c0, lastCap) && mask != 0 && lastCap >= LAST_CAP
    requires c1 == c0.(bounding := Narrowed(c0.bounding, mask, LAST_CAP + 1), keepCaps := true)
    requires c2 == UserChanged(c1, gids, uid, gid)
    ensures var m := CapsOf(mask);
            && CapSetCall(c2, m, m, m).Some?
            && CapSetCall(c2, m, m, m).value.(ambient := CapSetCall(c2, m, m, m).value.ambient + m)
               == Dropped(c0, gids, uid, gid, mask)
  {
    hide Bit;
    var m := CapsOf(mask);
    assert m <= c2.permitted && m <= c2.bounding;
    assert c2.ambient * m * m + m == m;
  }

  /** On an older kernel a mask that no bounding drop fails for names a capability out of reach. */
  lemma CapSetRefused(c: Creds, lastCap: Cap, mask: nat)
    requires lastCap < LAST_CAP && Covers(mask, lastCap) && c.permitted <= Full(lastCap)
    ensures CapSetCall(c, CapsOf(mask), CapsOf(mask), CapsOf(mask)).None?
  {
    hide Bit;
    var b: Cap := lastCap + 1;
    assert Bit(mask, b) && b in CapsOf(mask) && !Known(b, lastCap);
  }

  // ---- After execve ----------------------------------------------------------------------

  /** THE EXACT DROP.  From root with full sets, for every target and every nonzero mask, permitted,
      effective, inheritable and ambient sets are the mask's set, and the bounding set is cut down to
      it.  After execve of an ordinary file the process holds exactly those capabilities, for a root
      and a non-root target alike, if and only if the target is not root or the kernel has no
      capability beyond the table. */
  lemma ExactCapabilities(c: Creds, lastCap: Cap, gids: seq<nat>, uid: nat, gid: nat, mask: nat)
    requires RootWithFullSets(c, lastCap) && CanDrop(lastCap, mask) && mask != 0 && Fits(mask, LAST_CAP + 1)
    ensures var d, m := Dropped(c, gids, uid, gid, mask), CapsOf(mask);
            && d.permitted == d.effective == d.inheritable == d.ambient == m
            && d.bounding == m + Beyond(lastCap)
            && (lastCap == LAST_CAP ==> d.bounding == m)
    ensures var e, m := Execve(Dropped(c, gids, uid, gid, mask)), CapsOf(mask);
            && m <= e.permitted == e.effective
            && (e.permitted == m <==> uid != 0 || lastCap == LAST_CAP)
            && e.ruid == e.euid == e.suid == uid && e.rgid == e.egid == e.sgid == gid && e.groups == gids
  {
    hide Bit;
    BitsAbove(mask);
    var d, m := Dropped(c, gids, uid, gid, mask), CapsOf(mask);
    assert d.bounding == m + Beyond(lastCap);
    if lastCap > LAST_CAP {
      assert Known(lastCap, lastCap) && lastCap in Beyond(lastCap) && lastCap !in m;
    } else {
      assert Beyond(lastCap) == {};
    }
  }

  /** Without a capability list a non-root target runs with no capability at all, and a root target
      keeps everything. */
  lemma FullUserDrop(c: Creds, lastCap: Cap, gids: seq<nat>, uid: nat, gid: nat)
    requires RootWithFullSets(c, lastCap)
    ensures var e := Execve(Dropped(c, gids, uid, gid, 0));
            && (uid != 0 ==> e.permitted == e.effective == e.ambient == {})
            && (uid == 0 ==> Full(lastCap) <= e.permitted == e.effective)
            && e.ruid == e.euid == e.suid == uid && e.rgid == e.egid == e.sgid == gid && e.groups == gids
  {
  }

  /** Why the order matters: a capability outside the keep-capabilities window is gone.  Changing
      the user first leaves nothing for capset to grant. */
  lemma UserChangeFirstLosesEverything(c: Creds, lastCap: Cap, uid: nat, mask: nat)
    requires RootWithFullSets(c, lastCap) && uid != 0 && CapsOf(mask) != {}
    ensures var changed := SetUid(c, uid);
            && changed.Some?
            && CapSetCall(changed.value, CapsOf(mask), CapsOf(mask), CapsOf(mask)).None?
            && BoundingDrop(changed.value, lastCap, 0).None?
  {
    assert Known(CAP_SETUID, lastCap) && CAP_SETUID in Full(lastCap);
  }
}
