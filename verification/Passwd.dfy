/** The four readers of the password file: by user id, by name, home directory and shell. */
module Passwd {
  import opened Text

  // ---- Colon-separated fields ------------------------------------------------------------

  /** The text before the first colon, and what follows it if there is one. */
  datatype Cut = Cut(head: string, tail: Option<string>)

  function CutAt(line: string): Cut {
    var k := Find(line, ':');
    Cut(line[..k], if k < |line| then Some(line[k + 1..]) else None)
  }

  function FirstLine(s: string): string { s[..Find(s, '\n')] }

  function OtherLines(s: string): string { Drop(s, Find(s, '\n') + 1) }

  // ---- Lookup by user id -----------------------------------------------------------------

  datatype UidResult = NoUid | Uid(name: string, gid: nat)

  /** What one line says about `uid`: nothing, an answer, or that the search ends unanswered. */
  datatype UidLine = SkipUid | StopUid | AnswerUid(name: string, gid: nat)

  function UidInLine(line: string, uid: int): UidLine {
    var c1 := CutAt(line);
    if c1.tail.None? then SkipUid
    else
      var c2 := CutAt(c1.tail.value);
      if c2.tail.None? then SkipUid
      else
        var c3 := CutAt(c2.tail.value);
        if c3.tail.None? then SkipUid
        else if DecOf(c3.head) < 0 || DecOf(c3.head) != uid then SkipUid
        else
          var gid := DecOf(CutAt(c3.tail.value).head);
          if gid < 0 then StopUid
          else if c1.head == "" then SkipUid
          else AnswerUid(c1.head, gid)
  }

  function LookupUid(s: string, uid: int): UidResult
    decreases |s|
  {
    if s == "" then NoUid
    else match UidInLine(FirstLine(s), uid)
      case SkipUid => LookupUid(OtherLines(s), uid)
      case StopUid => NoUid
      case AnswerUid(name, gid) => Uid(name, gid)
  }

  /** `CutAt` on a slice of the buffer, by position. */
  lemma CutOfSlice(buf: string, start: nat, end: nat, c: nat)
    requires start <= end <= |buf| && c == start + Find(buf[start..end], ':')
    ensures c <= end
    ensures CutAt(buf[start..end]) == Cut(buf[start..c], if c < end then Some(buf[c + 1..end]) else None)
  {
    HeadSlice(buf, start, end, c - start);
    if c < end { TailSlice(buf, start, end, c + 1 - start); }
  }

  method ReadUidLine(buf: string, pos: nat, lineEnd: nat, uid: int) returns (r: UidLine)
    requires pos <= lineEnd <= |buf|
    ensures r == UidInLine(buf[pos..lineEnd], uid)
  {
    hide CutAt, DecOf, Find;
    var c1 := FindByte(buf, pos, lineEnd, ':');
    CutOfSlice(buf, pos, lineEnd, c1);
    if c1 == lineEnd { return SkipUid; }
    var c2 := FindByte(buf, c1 + 1, lineEnd, ':');
    CutOfSlice(buf, c1 + 1, lineEnd, c2);
    if c2 == lineEnd { return SkipUid; }
    var c3 := FindByte(buf, c2 + 1, lineEnd, ':');
    CutOfSlice(buf, c2 + 1, lineEnd, c3);
    if c3 == lineEnd { return SkipUid; }
    var parsedUid := ParseUint(buf, c2 + 1, c3);
    if parsedUid < 0 || parsedUid != uid { return SkipUid; }
    var c4 := FindByte(buf, c3 + 1, lineEnd, ':');
    CutOfSlice(buf, c3 + 1, lineEnd, c4);
    var parsedGid := ParseUint(buf, c3 + 1, c4);
    if parsedGid < 0 { return StopUid; }
    if c1 - pos == 0 { return SkipUid; }
    r := AnswerUid(buf[pos..c1], parsedGid);
  }

  /** The line loop's next position. */
  function NextPos(buf: string, lineEnd: nat): (r: nat)
    requires lineEnd <= |buf|
    ensures r <= |buf| && (lineEnd < |buf| ==> r == lineEnd + 1) && (lineEnd == |buf| ==> r == |buf|)
  {
    if lineEnd < |buf| then lineEnd + 1 else |buf|
  }

  lemma LineOfBuffer(buf: string, pos: nat, lineEnd: nat)
    requires pos < |buf| && lineEnd == pos + Find(buf[pos..], '\n')
    ensures lineEnd <= |buf|
    ensures FirstLine(buf[pos..]) == buf[pos..lineEnd]
    ensures OtherLines(buf[pos..]) == buf[NextPos(buf, lineEnd)..]
  {
  }

  method IdentityLookupUid(buf: string, uid: int) returns (r: UidResult)
    ensures r == LookupUid(buf, uid)
  {
    hide UidInLine;
    var pos := 0;
    assert buf[0..] == buf;
    while pos < |buf|
      invariant pos <= |buf|
      invariant LookupUid(buf, uid) == LookupUid(buf[pos..], uid)
    {
      SuffixAll(buf, pos);
      var lineEnd := FindByte(buf, pos, |buf|, '\n');
      LineOfBuffer(buf, pos, lineEnd);
      var line := ReadUidLine(buf, pos, lineEnd, uid);
      match line {
        case SkipUid =>
        case StopUid => return NoUid;
        case AnswerUid(name, gid) => return Uid(name, gid);
      }
      pos := NextPos(buf, lineEnd);
    }
    r := NoUid;
  }

  /** What a line says about a user id, by its fields: it needs four, the third the id and the fourth a
      number, and a name. */
  lemma UidLineByFields(line: string, uid: nat)
    ensures var f := SplitBy(line, ':');
            UidInLine(line, uid) ==
              if |f| < 4 || DecOf(f[2]) != uid then SkipUid
              else if DecOf(f[3]) < 0 then StopUid
              else if f[0] == "" then SkipUid
              else AnswerUid(f[0], DecOf(f[3]))
  {
    hide DecOf, CutAt;
    FieldsStep(line);
    var c1 := CutAt(line);
    if c1.tail.Some? {
      FieldsStep(c1.tail.value);
      var c2 := CutAt(c1.tail.value);
      if c2.tail.Some? {
        FieldsStep(c2.tail.value);
        var c3 := CutAt(c2.tail.value);
        if c3.tail.Some? { FieldsStep(c3.tail.value); }
      }
    }
  }

  lemma FieldsStep(line: string)
    ensures var c := CutAt(line);
            SplitBy(line, ':') == [c.head] + if c.tail.Some? then SplitBy(c.tail.value, ':') else []
  {
    assert line[..|line|] == line;
  }

  /** Line by line: the first line that does not skip the id decides. */
  lemma UidByLines(line: string, more: string, uid: int)
    requires '\n' !in line && line != ""
    ensures LookupUid(line + "\n" + more, uid) ==
              match UidInLine(line, uid)
              case SkipUid => LookupUid(more, uid)
              case StopUid => NoUid
              case AnswerUid(name, gid) => Uid(name, gid)
  {
    hide UidInLine;
    LineOff(line, more);
  }

  lemma LineOff(line: string, more: string)
    requires '\n' !in line
    ensures var s := line + "\n" + more;
            FirstLine(s) == line && OtherLines(s) == more
  {
    var s := line + "\n" + more;
    assert s == line + ("\n" + more);
    FindFirst(line, '\n', |line|);
    FindInPrefix(line, "\n" + more, '\n');
    FindFirst("\n" + more, '\n', 0);
    assert s[..|line|] == line;
    if more != "" { assert s[|line| + 1..] == more; }
  }

  // ---- Lookup by name --------------------------------------------------------------------

  datatype UserResult = NoUser | User(uid: nat, gid: nat)

  function UserInLine(tail: string): UserResult {
    var c2 := CutAt(tail);
    if c2.tail.None? then NoUser
    else
      var c3 := CutAt(c2.tail.value);
      if c3.tail.None? || DecOf(c3.head) < 0 then NoUser
      else
        var gid := DecOf(CutAt(c3.tail.value).head);
        if gid < 0 then NoUser else User(DecOf(c3.head), gid)
  }

  /** The first line whose first field is `name` settles the search. */
  function LookupUser(s: string, name: string): UserResult
    decreases |s|
  {
    if s == "" then NoUser
    else
      var c1 := CutAt(FirstLine(s));
      if c1.head == name then if c1.tail.None? then NoUser else UserInLine(c1.tail.value)
      else LookupUser(OtherLines(s), name)
  }

  method ReadUserLine(buf: string, start: nat, lineEnd: nat) returns (r: UserResult)
    requires start <= lineEnd <= |buf|
    ensures r == UserInLine(buf[start..lineEnd])
  {
    hide CutAt, DecOf, Find;
    var c2 := FindByte(buf, start, lineEnd, ':');
    CutOfSlice(buf, start, lineEnd, c2);
    if c2 == lineEnd { return NoUser; }
    var c3 := FindByte(buf, c2 + 1, lineEnd, ':');
    CutOfSlice(buf, c2 + 1, lineEnd, c3);
    if c3 == lineEnd { return NoUser; }
    var parsedUid := ParseUint(buf, c2 + 1, c3);
    if parsedUid < 0 { return NoUser; }
    var c4 := FindByte(buf, c3 + 1, lineEnd, ':');
    CutOfSlice(buf, c3 + 1, lineEnd, c4);
    var parsedGid := ParseUint(buf, c3 + 1, c4);
    if parsedGid < 0 { return NoUser; }
    r := User(parsedUid, parsedGid);
  }

  method IdentityLookupUser(buf: string, name: string) returns (r: UserResult)
    ensures r == if name == "" then NoUser else LookupUser(buf, name)
  {
    hide UserInLine, CutAt;
    if |name| == 0 { return NoUser; }
    var pos := 0;
    assert buf[0..] == buf;
    while pos < |buf|
      invariant pos <= |buf|
      invariant LookupUser(buf, name) == LookupUser(buf[pos..], name)
    {
      SuffixAll(buf, pos);
      var lineEnd := FindByte(buf, pos, |buf|, '\n');
      LineOfBuffer(buf, pos, lineEnd);
      var c1 := FindByte(buf, pos, lineEnd, ':');
      CutOfSlice(buf, pos, lineEnd, c1);
      if c1 - pos == |name| && buf[pos..c1] == name {
        // A first field without a colon has nothing after it to read.
        if c1 == lineEnd { return NoUser; }
        r := ReadUserLine(buf, c1 + 1, lineEnd);
        return;
      }
      pos := NextPos(buf, lineEnd);
    }
    r := NoUser;
  }

  /** What the rest of a line says, by its fields: it needs three, the second and third numbers. */
  lemma UserLineByFields(tail: string)
    ensures var f := SplitBy(tail, ':');
            UserInLine(tail) ==
              if |f| < 3 || DecOf(f[1]) < 0 || DecOf(f[2]) < 0 then NoUser else User(DecOf(f[1]), DecOf(f[2]))
  {
    hide DecOf, CutAt;
    FieldsStep(tail);
    var c2 := CutAt(tail);
    if c2.tail.Some? {
      FieldsStep(c2.tail.value);
      var c3 := CutAt(c2.tail.value);
      if c3.tail.Some? { FieldsStep(c3.tail.value); }
    }
  }

  /** Line by line: the first line whose first field is the name decides, well formed or not. */
  lemma UserByLines(line: string, more: string, name: string)
    requires '\n' !in line && line != ""
    ensures var f := SplitBy(line, ':');
            LookupUser(line + "\n" + more, name) ==
              if f[0] != name then LookupUser(more, name)
              else if |f| == 1 then NoUser
              else UserInLine(line[|name| + 1..])
  {
    hide UserInLine;
    LineOff(line, more);
    FieldsStep(line);
    FindMeets(line, ':');
  }

  // ---- Home directory and shell ----------------------------------------------------------

  /** Position just after the `k`-th colon, or the length when there are fewer. */
  function AfterColons(s: string, k: nat): (r: nat)
    requires k > 0
    ensures r <= |s|
  {
    if s == "" then 0
    else if s[0] == ':' && k == 1 then 1
    else 1 + AfterColons(s[1..], if s[0] == ':' then k - 1 else k)
  }

  /** Position of the first newline, or first colon when colons end the field too. */
  function FieldLen(s: string, colonEnds: bool): (r: nat)
    ensures r <= |s|
  {
    if s == "" || s[0] == '\n' || (colonEnds && s[0] == ':') then 0 else 1 + FieldLen(s[1..], colonEnds)
  }

  function FieldAfter(s: string, colons: nat, colonEnds: bool): string
    requires colons > 0
  {
    var f := s[AfterColons(s, colons)..];
    f[..FieldLen(f, colonEnds)]
  }

  /** Does the buffer continue with this name and a colon? */
  predicate StartsEntry(s: string, user: string) {
    |user| < |s| && s[..|user|] == user && s[|user|] == ':'
  }

  function FindField(s: string, user: string, colons: nat, colonEnds: bool): Option<string>
    requires colons > 0
    decreases |s|
  {
    if s == "" then None
    else if StartsEntry(s, user) then Some(FieldAfter(s, colons, colonEnds))
    else FindField(OtherLines(s), user, colons, colonEnds)
  }

  method SkipColons(buf: string, pos: nat, wanted: nat) returns (p: nat)
    requires pos <= |buf| && wanted > 0
    ensures p == pos + AfterColons(buf[pos..], wanted)
  {
    var colons := 0;
    p := pos;
    while p < |buf|
      invariant pos <= p <= |buf| && 0 <= colons < wanted
      invariant AfterColons(buf[pos..], wanted) == p - pos + AfterColons(buf[p..], wanted - colons)
    {
      assert buf[p..][1..] == buf[p + 1..];
      if buf[p] == ':' { colons := colons + 1; }
      if colons == wanted { p := p + 1; return; }
      p := p + 1;
    }
  }

  method FieldEnd(buf: string, start: nat, colonEnds: bool) returns (p: nat)
    requires start <= |buf|
    ensures p == start + FieldLen(buf[start..], colonEnds)
  {
    p := start;
    while p < |buf|
      invariant start <= p <= |buf|
      invariant FieldLen(buf[start..], colonEnds) == p - start + FieldLen(buf[p..], colonEnds)
    {
      assert buf[p..][1..] == buf[p + 1..];
      if colonEnds && buf[p] == ':' { break; }
      if buf[p] == '\n' { break; }
      p := p + 1;
    }
  }

  /** The field loops of both readers: they count colons from the start of the entry and copy up to
      the end of the field. */
  method ReadField(buf: string, pos: nat, wanted: nat, colonEnds: bool) returns (field: string)
    requires pos <= |buf| && wanted > 0
    ensures field == FieldAfter(buf[pos..], wanted, colonEnds)
  {
    var start := SkipColons(buf, pos, wanted);
    Suffix(buf, pos, start - pos);
    var p := FieldEnd(buf, start, colonEnds);
    SuffixHead(buf, start, p - start);
    field := buf[start..p];
  }

  method FindFieldIn(buf: string, user: string, wanted: nat, colonEnds: bool) returns (r: Option<string>)
    requires wanted > 0
    ensures r == FindField(buf, user, wanted, colonEnds)
  {
    hide FieldAfter;
    var ulen := |user|;
    var pos := 0;
    assert buf[0..] == buf;
    while pos < |buf|
      invariant pos <= |buf|
      invariant FindField(buf, user, wanted, colonEnds) == FindField(buf[pos..], user, wanted, colonEnds)
    {
      if pos + ulen < |buf| {
        SuffixHead(buf, pos, ulen);
        if buf[pos..pos + ulen] == user && buf[pos + ulen] == ':' {
          assert StartsEntry(buf[pos..], user);
          var f := ReadField(buf, pos, wanted, colonEnds);
          return Some(f);
        }
      }
      assert !StartsEntry(buf[pos..], user);
      SuffixAll(buf, pos);
      var lineEnd := FindByte(buf, pos, |buf|, '\n');
      LineOfBuffer(buf, pos, lineEnd);
      pos := NextPos(buf, lineEnd);
    }
    r := None;
  }

  function HomeOf(buf: string, user: string): string {
    var f := FindField(buf, user, 5, true);
    if user == "root" then "/root" else if f.Some? then f.value else "/home/" + user
  }

  function ShellOf(buf: string, user: string): string {
    var f := FindField(buf, user, 6, false);
    if f.Some? then f.value else "/bin/sh"
  }

  method TargetHome(buf: string, user: string) returns (home: string)
    ensures home == HomeOf(buf, user)
  {
    if user == "root" { return "/root"; }
    var f := FindFieldIn(buf, user, 5, true);
    home := if f.Some? then f.value else "/home/" + user;
  }

  method TargetShell(buf: string, user: string) returns (shell: string)
    ensures shell == ShellOf(buf, user)
  {
    var f := FindFieldIn(buf, user, 6, false);
    shell := if f.Some? then f.value else "/bin/sh";
  }

  // ---- One table, four readers -----------------------------------------------------------

  datatype Entry = Entry(name: string, password: string, uid: nat, gid: nat, gecos: string, home: string,
                         shell: string)

  predicate FieldOk(f: string) { ':' !in f && '\n' !in f }

  predicate EntryOk(e: Entry) {
    && e.name != "" && FieldOk(e.name) && FieldOk(e.password) && FieldOk(e.gecos) && FieldOk(e.home)
    && FieldOk(e.shell) && e.uid <= UINT_MAX && e.gid <= UINT_MAX
  }

  predicate TableOk(t: seq<Entry>) {
    && (forall i :: 0 <= i < |t| ==> EntryOk(t[i]))
    && (forall i, j :: 0 <= i < j < |t| ==> t[i].name != t[j].name && t[i].uid != t[j].uid)
  }

  function Tail(e: Entry): string {
    e.password + (":" + (Dec(e.uid) + (":" + (Dec(e.gid) + (":" + (e.gecos + (":" + (e.home + (":" + e.shell)))))))))
  }

  function EntryText(e: Entry): string { e.name + (":" + Tail(e)) }

  function Render(t: seq<Entry>): string {
    if t == [] then "" else EntryText(t[0]) + "\n" + Render(t[1..])
  }

  lemma CutField(f: string, rest: string)
    requires ':' !in f
    ensures CutAt(f + (":" + rest)) == Cut(f, Some(rest))
    ensures CutAt(f) == Cut(f, None)
  {
    var line := f + (":" + rest);
    FindFirst(f, ':', |f|);
    FindInPrefix(f, ":" + rest, ':');
    FindFirst(":" + rest, ':', 0);
    assert line[..|f|] == f && line[|f| + 1..] == rest;
    assert f[..|f|] == f;
  }

  lemma DecIsField(n: nat)
    ensures FieldOk(Dec(n)) && (n <= UINT_MAX ==> DecOf(Dec(n)) == n)
  {
    DecValueOfDec(n);
  }

  lemma EntryCuts(e: Entry)
    requires EntryOk(e)
    ensures UidInLine(EntryText(e), e.uid) == AnswerUid(e.name, e.gid)
    ensures forall uid: int :: uid != e.uid ==> UidInLine(EntryText(e), uid) == SkipUid
    ensures CutAt(EntryText(e)) == Cut(e.name, Some(Tail(e)))
    ensures UserInLine(Tail(e)) == User(e.uid, e.gid)
  {
    hide CutAt, Dec, DecOf;
    var t6 := e.gecos + (":" + (e.home + (":" + e.shell)));
    var t4 := Dec(e.gid) + (":" + t6);
    var t3 := Dec(e.uid) + (":" + t4);
    DecIsField(e.uid);
    DecIsField(e.gid);
    CutField(e.name, Tail(e));
    CutField(e.password, t3);
    CutField(Dec(e.uid), t4);
    CutField(Dec(e.gid), t6);
  }

  lemma {:induction false} NoNewline(e: Entry)
    requires EntryOk(e)
    ensures '\n' !in EntryText(e)
  {
    DecIsField(e.uid);
    DecIsField(e.gid);
  }

  lemma FirstEntry(e: Entry, more: string)
    requires EntryOk(e)
    ensures var s := EntryText(e) + "\n" + more;
            FirstLine(s) == EntryText(e) && OtherLines(s) == more
  {
    hide Dec, EntryText;
    NoNewline(e);
    var line := EntryText(e);
    var s := line + "\n" + more;
    assert s == line + ("\n" + more);
    FindFirst(line, '\n', |line|);
    FindInPrefix(line, "\n" + more, '\n');
    FindFirst("\n" + more, '\n', 0);
    assert s[..|line|] == line;
    if more != "" { assert s[|line| + 1..] == more; }
  }

  predicate HasUid(t: seq<Entry>, uid: int) { exists i :: 0 <= i < |t| && t[i].uid == uid }

  predicate HasName(t: seq<Entry>, name: string) { exists i :: 0 <= i < |t| && t[i].name == name }

  lemma {:induction false} UidLookups(t: seq<Entry>, uid: int)
    requires TableOk(t)
    ensures forall i :: 0 <= i < |t| && t[i].uid == uid ==>
              LookupUid(Render(t), uid) == Uid(t[i].name, t[i].gid)
    ensures !HasUid(t, uid) ==> LookupUid(Render(t), uid) == NoUid
  {
    hide UidInLine, EntryText, FirstLine, OtherLines;
    if t != [] {
      FirstEntry(t[0], Render(t[1..]));
      EntryCuts(t[0]);
      UidLookups(t[1..], uid);
      assert forall i :: 0 < i < |t| ==> t[i] == t[1..][i - 1];
      assert HasUid(t[1..], uid) ==> HasUid(t, uid);
    }
  }

  lemma {:induction false} UserLookups(t: seq<Entry>, name: string)
    requires TableOk(t)
    ensures forall i :: 0 <= i < |t| && t[i].name == name ==>
              LookupUser(Render(t), name) == User(t[i].uid, t[i].gid)
    ensures !HasName(t, name) ==> LookupUser(Render(t), name) == NoUser
  {
    hide CutAt, UserInLine, EntryText, FirstLine, OtherLines;
    if t != [] {
      FirstEntry(t[0], Render(t[1..]));
      EntryCuts(t[0]);
      UserLookups(t[1..], name);
      assert forall i :: 0 < i < |t| ==> t[i] == t[1..][i - 1];
      assert HasName(t[1..], name) ==> HasName(t, name);
    }
  }

  lemma {:induction false} SkipField(f: string, rest: string, k: nat)
    requires k > 0 && ':' !in f
    ensures AfterColons(f + (":" + rest), k) == |f| + 1 + if k == 1 then 0 else AfterColons(rest, k - 1)
  {
    if f == "" {
      assert (f + (":" + rest))[1..] == rest;
    } else {
      assert (f + (":" + rest))[1..] == f[1..] + (":" + rest);
      SkipField(f[1..], rest, k);
    }
  }

  lemma {:induction false} FieldStops(f: string, rest: string, colonEnds: bool)
    requires FieldOk(f) && rest != "" && (rest[0] == '\n' || (colonEnds && rest[0] == ':'))
    ensures FieldLen(f + rest, colonEnds) == |f| && (f + rest)[..|f|] == f
  {
    if f == "" {
      assert f + rest == rest;
    } else {
      assert (f + rest)[1..] == f[1..] + rest;
      FieldStops(f[1..], rest, colonEnds);
    }
  }

  lemma Skip(f: string, rest: string, k: nat)
    requires k > 1 && ':' !in f
    ensures var s := f + (":" + rest);
            s[AfterColons(s, k)..] == rest[AfterColons(rest, k - 1)..]
  {
    SkipField(f, rest, k);
  }

  lemma Skip1(f: string, rest: string)
    requires ':' !in f
    ensures var s := f + (":" + rest);
            s[AfterColons(s, 1)..] == rest
  {
    SkipField(f, rest, 1);
  }

  lemma EntryFields(e: Entry, more: string)
    requires EntryOk(e)
    ensures var s := EntryText(e) + "\n" + more;
            FieldAfter(s, 5, true) == e.home && FieldAfter(s, 6, false) == e.shell
  {
    hide AfterColons, FieldLen, Dec;
    DecIsField(e.uid);
    DecIsField(e.gid);
    var t6 := e.shell + ("\n" + more);
    var t5 := e.home + (":" + t6);
    var t4 := e.gecos + (":" + t5);
    var t3 := Dec(e.gid) + (":" + t4);
    var t2 := Dec(e.uid) + (":" + t3);
    var t1 := e.password + (":" + t2);
    var s := e.name + (":" + t1);
    assert EntryText(e) + "\n" + more == s;
    Skip(e.name, t1, 5); Skip(e.password, t2, 4); Skip(Dec(e.uid), t3, 3); Skip(Dec(e.gid), t4, 2);
    Skip1(e.gecos, t5);
    Skip(e.name, t1, 6); Skip(e.password, t2, 5); Skip(Dec(e.uid), t3, 4); Skip(Dec(e.gid), t4, 3);
    Skip(e.gecos, t5, 2); Skip1(e.home, t6);
    FieldStops(e.home, ":" + t6, true);
    FieldStops(e.shell, "\n" + more, false);
  }

  lemma StartsOnlyItsName(e: Entry, more: string, user: string)
    requires EntryOk(e) && FieldOk(user)
    ensures StartsEntry(EntryText(e) + "\n" + more, user) <==> e.name == user
  {
    hide Tail;
    var s := EntryText(e) + "\n" + more;
    assert s == e.name + (":" + (Tail(e) + "\n" + more));
    if StartsEntry(s, user) {
      assert s[|e.name|] == ':' && forall i :: 0 <= i < |e.name| ==> s[i] == e.name[i];
      assert forall i :: 0 <= i < |user| ==> user[i] == s[..|user|][i] == s[i];
      assert |user| == |e.name|;
      assert s[..|user|] == e.name;
    }
    if e.name == user {
      assert s[..|user|] == user && s[|user|] == ':';
    }
  }

  lemma {:induction false} FieldLookups(t: seq<Entry>, user: string)
    requires TableOk(t) && FieldOk(user)
    ensures forall i :: 0 <= i < |t| && t[i].name == user ==>
              && FindField(Render(t), user, 5, true) == Some(t[i].home)
              && FindField(Render(t), user, 6, false) == Some(t[i].shell)
    ensures !HasName(t, user) ==>
              FindField(Render(t), user, 5, true).None? && FindField(Render(t), user, 6, false).None?
  {
    hide EntryText, FirstLine, OtherLines, FieldAfter, StartsEntry;
    if t != [] {
      FirstEntry(t[0], Render(t[1..]));
      EntryFields(t[0], Render(t[1..]));
      StartsOnlyItsName(t[0], Render(t[1..]), user);
      FieldLookups(t[1..], user);
      assert forall i :: 0 < i < |t| ==> t[i] == t[1..][i - 1];
      assert HasName(t[1..], user) ==> HasName(t, user);
    }
  }

  /** A name that the table does not have gets the default home and shell. */
  lemma Fallbacks(t: seq<Entry>, user: string)
    requires TableOk(t) && FieldOk(user) && !HasName(t, user)
    ensures HomeOf(Render(t), user) == if user == "root" then "/root" else "/home/" + user
    ensures ShellOf(Render(t), user) == "/bin/sh"
  {
    FieldLookups(t, user);
  }

  /** ONE TABLE, FOUR READERS.  On a rendered table with unique names and user ids, looking up a
      record by its id and by its name are inverse to each other and give that record's numbers, and
      the home and shell readers return the same record's fields, except that root's home is fixed. */
  lemma ReadersAgree(t: seq<Entry>, i: nat)
    requires TableOk(t) && i < |t|
    ensures LookupUid(Render(t), t[i].uid) == Uid(t[i].name, t[i].gid)
    ensures LookupUser(Render(t), t[i].name) == User(t[i].uid, t[i].gid)
    ensures HomeOf(Render(t), t[i].name) == if t[i].name == "root" then "/root" else t[i].home
    ensures ShellOf(Render(t), t[i].name) == t[i].shell
  {
    UidLookups(t, t[i].uid);
    UserLookups(t, t[i].name);
    FieldLookups(t, t[i].name);
  }

  /** Lookup by id and lookup by name undo each other, for every id and every name, present or not:
      no prefix or suffix of a name ever matches. */
  lemma LookupsInverse(t: seq<Entry>, uid: nat, name: string, gid: nat)
    requires TableOk(t)
    ensures LookupUid(Render(t), uid) == Uid(name, gid) <==> LookupUser(Render(t), name) == User(uid, gid)
  {
    hide LookupUid, LookupUser, Render;
    UidLookups(t, uid);
    UserLookups(t, name);
    if HasUid(t, uid) {
      var i :| 0 <= i < |t| && t[i].uid == uid;
    }
    if HasName(t, name) {
      var j :| 0 <= j < |t| && t[j].name == name;
      UidLookups(t, t[j].uid);
    }
  }

  /** Whatever the file holds, a name found by user id is not empty and has no colon. */
  lemma {:induction false} FoundNamesHaveNoColon(s: string, uid: int)
    ensures LookupUid(s, uid).Uid? ==> LookupUid(s, uid).name != "" && ':' !in LookupUid(s, uid).name
    decreases |s|
  {
    if s != "" {
      var line := FirstLine(s);
      if UidInLine(line, uid).AnswerUid? { FindMeets(line, ':'); }
      FoundNamesHaveNoColon(OtherLines(s), uid);
    }
  }
}
