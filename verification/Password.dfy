/** The password prompt: one line per attempt through one buffer, at most three attempts, and a
    buffer that is zero again whenever the prompt returns. */
module Password {
  import opened Text

  const MAX_AUTH_ATTEMPTS := 3
  const PW_BUF_CAP := 1024

  /** What each one-byte read of the terminal gives: a byte, or nothing at its end or on an error. */
  type Input = seq<Option<char>>

  /** The bytes typed before a newline, a failed read or the limit. */
  function Typed(input: Input, limit: nat): string {
    if limit == 0 || input == [] || input[0].None? || input[0].value == '\n' then ""
    else [input[0].value] + Typed(input[1..], limit - 1)
  }

  /** What is left to read: the newline or failed read is used up too. */
  function Unread(input: Input, limit: nat): Input {
    if limit == 0 || input == [] then input
    else if input[0].None? || input[0].value == '\n' then input[1..]
    else Unread(input[1..], limit - 1)
  }

  /** The password of one attempt: the first line, cut at a NUL, a failed read or `cap - 1` bytes. */
  function Line(input: Input): string { CStr(Typed(input, PW_BUF_CAP - 1)) }

  function Remaining(input: Input): Input { Unread(input, PW_BUF_CAP - 1) }

  class Console {
    var input: Input
    var results: seq<int>
    // The passwords the backend was asked about, in order.
    ghost var asked: seq<string>

    constructor (input: Input, results: seq<int>)
      ensures this.input == input && this.results == results && asked == []
    {
      this.input, this.results, asked := input, results, [];
    }

    method ReadByte(buf: array<char>, pos: nat) returns (got: int)
      requires pos < buf.Length
      modifies `input, buf
      ensures old(input) == [] ==> got == 0 && input == [] && buf[..] == old(buf[..])
      ensures old(input) != [] ==> input == old(input)[1..]
      ensures old(input) != [] && old(input)[0].None? ==> got == -1 && buf[..] == old(buf[..])
      ensures old(input) != [] && old(input)[0].Some? ==>
                got == 1 && buf[..] == old(buf[..])[pos := old(input)[0].value]
    {
      if input == [] { return 0; }
      got := -1;
      if input[0].Some? {
        buf[pos] := input[0].value;
        got := 1;
      }
      input := input[1..];
    }

    /** The backend: 1 accepts, anything else does not. */
    method Authenticate(ghost user: string, password: string) returns (r: int)
      modifies `results, `asked
      ensures asked == old(asked) + [password]
      ensures r == Result(old(results)) && results == LaterResults(old(results))
    {
      r := Result(results);
      results := LaterResults(results);
      asked := asked + [password];
    }
  }

  function Result(results: seq<int>): int { if results == [] then 0 else results[0] }

  function LaterResults(results: seq<int>): seq<int> { if results == [] then [] else results[1..] }

  predicate Zeroed(s: string) { forall i :: 0 <= i < |s| ==> s[i] == NUL }

  lemma {:induction false} TypedIsShort(input: Input, limit: nat)
    ensures |Typed(input, limit)| <= limit && '\n' !in Typed(input, limit)
  {
    if Typed(input, limit) != "" { TypedIsShort(input[1..], limit - 1); }
  }

  /** The buffer after reading: the typed bytes, perhaps the newline, and zeros. */
  ghost predicate Holds(s: string, typed: string) {
    && |typed| < |s| && s[..|typed|] == typed
    && (s[|typed|] == '\n' || s[|typed|] == NUL)
    && Zeroed(s[|typed| + 1..])
  }

  /** Why a line ends: the newline, a failed read, or the end of the input. */
  predicate EndsLine(stop: Input) { stop == [] || stop[0] == None || stop[0] == Some('\n') }

  /** One byte of input, when there is still room. */
  lemma OneByte(input: Input, limit: nat)
    requires limit > 0
    ensures if EndsLine(input) then
              Typed(input, limit) == "" && Unread(input, limit) == if input == [] then [] else input[1..]
            else
              && Typed(input, limit) == [input[0].value] + Typed(input[1..], limit - 1)
              && Unread(input, limit) == Unread(input[1..], limit - 1)
  {
  }

  lemma NoRoom(input: Input)
    ensures Typed(input, 0) == "" && Unread(input, 0) == input
  {
  }

  method FillLine(c: Console, buf: array<char>)
    requires buf.Length == PW_BUF_CAP && Zeroed(buf[..])
    modifies c`input, buf
    ensures Holds(buf[..], Typed(old(c.input), PW_BUF_CAP - 1))
    ensures c.input == Remaining(old(c.input))
  {
    hide Typed, Unread, Holds, Zeroed;
    var limit := PW_BUF_CAP - 1;
    var pos := 0;
    ghost var typed, done := "", false;
    ghost var all := Typed(c.input, limit);
    assert typed + all == all && buf[..][0..] == buf[..];
    while pos < limit
      invariant 0 <= pos <= limit && (!done ==> |typed| == pos) && (done ==> pos == limit)
      invariant !done ==> typed + Typed(c.input, limit - pos) == all
      invariant !done ==> Unread(c.input, limit - pos) == Remaining(old(c.input))
      invariant !done ==> buf[..pos] == typed && Zeroed(buf[..][pos..])
      invariant done ==> Holds(buf[..], all) && c.input == Remaining(old(c.input))
    {
      ghost var before, left := buf[..], c.input;
      assert before[..pos] == typed;
      OneByte(left, limit - pos);
      var got := c.ReadByte(buf, pos);
      if got <= 0 {
        assert typed + "" == typed;
        StopHolds(before, typed, NUL);
        assert before[pos := NUL] == before;
        pos := limit;
        done := true;
      } else if buf[pos] == '\n' {
        assert typed + "" == typed;
        StopHolds(before, typed, '\n');
        pos := limit;
        done := true;
      } else {
        GoOn(before, typed, buf[pos]);
        assert buf[..pos + 1] == buf[..][..pos + 1];
        ghost var more := Typed(c.input, limit - pos - 1);
        assert typed + ([buf[pos]] + more) == typed + [buf[pos]] + more;
        typed := typed + [buf[pos]];
        pos := pos + 1;
      }
    }
    if !done {
      NoRoom(c.input);
      assert typed + "" == typed;
      assert buf[..][..pos] == typed;
      StopHolds(buf[..], typed, NUL);
      assert buf[..][pos := NUL] == buf[..];
    }
  }

  lemma StopHolds(s: string, typed: string, stop: char)
    requires |typed| < |s| && s[..|typed|] == typed && Zeroed(s[|typed|..])
    requires stop == NUL || stop == '\n'
    ensures Holds(s[|typed| := stop], typed) && s[|typed|] == NUL
  {
    var n := |typed|;
    assert s[n..][0] == s[n];
    var t := s[n := stop];
    assert t[..n] == typed;
    assert t[n + 1..] == s[n..][1..];
  }

  lemma GoOn(s: string, typed: string, c: char)
    requires |typed| < |s| && s[..|typed|] == typed && Zeroed(s[|typed|..])
    ensures var t := s[|typed| := c];
            t[..|typed| + 1] == typed + [c] && Zeroed(t[|typed| + 1..])
  {
    var n := |typed|;
    var t := s[n := c];
    assert t[n + 1..] == s[n..][1..];
  }

  /** `_read_password_into`: the buffer then holds the line as a NUL-terminated string. */
  method ReadPasswordInto(c: Console, buf: array<char>)
    requires buf.Length == PW_BUF_CAP && Zeroed(buf[..])
    modifies c`input, buf
    ensures CStr(buf[..]) == Line(old(c.input)) && |CStr(buf[..])| < PW_BUF_CAP
    ensures c.input == Remaining(old(c.input))
  {
    hide Typed, Unread;
    ghost var typed := Typed(c.input, PW_BUF_CAP - 1);
    FillLine(c, buf);
    TypedIsShort(old(c.input), PW_BUF_CAP - 1);
    var limit := PW_BUF_CAP - 1;
    var len := 0;
    while len < limit
      invariant 0 <= len <= limit && len <= |typed|
      invariant forall i :: 0 <= i < len ==> buf[i] != NUL
    {
      assert len < |typed| ==> buf[len] == buf[..][..|typed|][len] == typed[len];
      if buf[len] == '\n' { break; }
      if buf[len] == NUL { break; }
      len := len + 1;
    }
    assert forall i :: 0 <= i < len ==> typed[i] == buf[..][..|typed|][i] == buf[i];
    assert len < |typed| ==> typed[len] == buf[..][..|typed|][len] == buf[len];
    FindFirst(typed, NUL, len);
    buf[len] := NUL;
    FindFirst(buf[..], NUL, len);
    assert buf[..][..len] == typed[..len];
  }

  method Zero(buf: array<char>)
    modifies buf
    ensures Zeroed(buf[..])
  {
    forall i | 0 <= i < buf.Length { buf[i] := NUL; }
  }

  // ---- The attempts ----------------------------------------------------------------------

  /** The passwords that reach the backend from the given attempt on. */
  function Asked(input: Input, results: seq<int>, attempt: nat): seq<string>
    decreases MAX_AUTH_ATTEMPTS + 1 - attempt
  {
    if attempt > MAX_AUTH_ATTEMPTS then []
    else if Line(input) == "" then Asked(Remaining(input), results, attempt + 1)
    else [Line(input)]
         + if Result(results) == 1 then [] else Asked(Remaining(input), LaterResults(results), attempt + 1)
  }

  function Accepted(input: Input, results: seq<int>, attempt: nat): bool
    decreases MAX_AUTH_ATTEMPTS + 1 - attempt
  {
    attempt <= MAX_AUTH_ATTEMPTS &&
    if Line(input) == "" then Accepted(Remaining(input), results, attempt + 1)
    else Result(results) == 1 || Accepted(Remaining(input), LaterResults(results), attempt + 1)
  }

  method PromptAndAuthenticate(c: Console, user: string, pbuf: array<char>) returns (ok: bool)
    requires pbuf.Length == PW_BUF_CAP && Zeroed(pbuf[..])
    modifies c, pbuf
    ensures Zeroed(pbuf[..])
    ensures c.asked == old(c.asked) + Asked(old(c.input), old(c.results), 1)
    ensures ok == Accepted(old(c.input), old(c.results), 1)
  {
    hide Line, Remaining;
    var attempt := 1;
    while attempt <= MAX_AUTH_ATTEMPTS
      invariant 1 <= attempt <= MAX_AUTH_ATTEMPTS + 1
      invariant Zeroed(pbuf[..])
      invariant c.asked + Asked(c.input, c.results, attempt) == old(c.asked) + Asked(old(c.input), old(c.results), 1)
      invariant Accepted(c.input, c.results, attempt) == Accepted(old(c.input), old(c.results), 1)
    {
      ReadPasswordInto(c, pbuf);
      var password := CStr(pbuf[..]);
      if |password| == 0 {
        Zero(pbuf);
        if attempt < MAX_AUTH_ATTEMPTS {
          attempt := attempt + 1;
        } else {
          assert c.asked + [] == c.asked;
          return false;
        }
      } else {
        var r := c.Authenticate(user, password);
        Zero(pbuf);
        if r == 1 {
          assert c.asked + [] == c.asked;
          return true;
        }
        attempt := attempt + 1;
      }
    }
    assert c.asked + [] == c.asked;
    ok := false;
  }

  /** At most three questions, never about an empty password, and success exactly when the last of
      them was answered with 1, every earlier one having been refused. */
  lemma {:induction false} PromptLimits(input: Input, results: seq<int>, attempt: nat)
    requires 1 <= attempt
    ensures var asked := Asked(input, results, attempt);
            && |asked| <= (if attempt > MAX_AUTH_ATTEMPTS then 0 else MAX_AUTH_ATTEMPTS + 1 - attempt)
            && "" !in asked
            && (Accepted(input, results, attempt) <==>
                  asked != [] && |asked| <= |results| && results[|asked| - 1] == 1)
            && (forall i :: 0 <= i < |asked| - 1 ==> i >= |results| || results[i] != 1)
    decreases MAX_AUTH_ATTEMPTS + 1 - attempt
  {
    hide Line, Remaining;
    if attempt <= MAX_AUTH_ATTEMPTS {
      PromptLimits(Remaining(input), results, attempt + 1);
      PromptLimits(Remaining(input), LaterResults(results), attempt + 1);
    }
  }

  // ---- What a line is --------------------------------------------------------------------

  /** The input of someone who types these bytes. */
  function Keystrokes(t: string): Input { seq(|t|, i requires 0 <= i < |t| => Some(t[i])) }

  lemma {:induction false} TypedIs(t: string, stop: Input, limit: nat)
    requires '\n' !in t && EndsLine(stop)
    ensures |t| < limit ==>
              && Typed(Keystrokes(t) + stop, limit) == t
              && Unread(Keystrokes(t) + stop, limit) == if stop == [] then [] else stop[1..]
    ensures |t| >= limit ==>
              && Typed(Keystrokes(t) + stop, limit) == t[..limit]
              && Unread(Keystrokes(t) + stop, limit) == Keystrokes(t[limit..]) + stop
  {
    var all := Keystrokes(t) + stop;
    if t == "" {
      assert all == stop;
      assert limit == 0 ==> Keystrokes(t[limit..]) + stop == stop;
    } else if limit == 0 {
      assert t[0..] == t;
    } else {
      assert all[0] == Some(t[0]) && all[1..] == Keystrokes(t[1..]) + stop;
      TypedIs(t[1..], stop, limit - 1);
      assert t == [t[0]] + t[1..];
      if |t| >= limit { assert t[..limit] == [t[0]] + t[1..][..limit - 1] && t[limit..] == t[1..][limit - 1..]; }
    }
  }

  /** A password is what is typed up to the newline, a failed read or the end of the input, cut at a NUL;
      of more than 1022 bytes the first 1023 count, and the rest is the next line. */
  lemma LineIsWhatWasTyped(t: string, stop: Input)
    requires '\n' !in t && EndsLine(stop)
    ensures |t| < 1023 ==>
              && Line(Keystrokes(t) + stop) == t[..Find(t, '\0')]
              && Remaining(Keystrokes(t) + stop) == if stop == [] then [] else stop[1..]
    ensures |t| >= 1023 ==>
              && Line(Keystrokes(t) + stop) == t[..1023][..Find(t[..1023], '\0')]
              && Remaining(Keystrokes(t) + stop) == Keystrokes(t[1023..]) + stop
  {
    hide Typed, Unread, Keystrokes;
    TypedIs(t, stop, 1023);
  }

  function Nonempty(line: string): seq<string> { if line == "" then [] else [line] }

  /** The three chances: the passwords asked about are the nonempty ones among the first three lines, up to
      the first that is accepted, and all of them when none is. */
  lemma ThreeChances(input: Input, results: seq<int>)
    ensures var in2 := Remaining(input);
            var in3 := Remaining(in2);
            var all := Nonempty(Line(input)) + Nonempty(Line(in2)) + Nonempty(Line(in3));
            var asked := Asked(input, results, 1);
            && asked <= all && |asked| <= 3
            && (!Accepted(input, results, 1) ==> asked == all)
  {
    hide Line, Remaining;
    var in2 := Remaining(input);
    var in3 := Remaining(in2);
    var r1 := if Line(input) == "" then results else LaterResults(results);
    var r2 := if Line(in2) == "" then r1 else LaterResults(r1);
    assert forall r :: Asked(Remaining(in3), r, 4) == [];
    LastChance(in3, r2);
    EarlierChance(in2, r1, 2);
    EarlierChance(input, results, 1);
  }

  lemma LastChance(input: Input, results: seq<int>)
    ensures Asked(input, results, 3) == Nonempty(Line(input))
    ensures Accepted(input, results, 3) <==> Line(input) != "" && Result(results) == 1
  {
    hide Line, Remaining;
  }

  lemma EarlierChance(input: Input, results: seq<int>, attempt: nat)
    requires attempt < 3
    ensures var more := Remaining(input);
            var later := if Line(input) == "" then results else LaterResults(results);
            var now := Line(input) != "" && Result(results) == 1;
            && Asked(input, results, attempt)
                 == Nonempty(Line(input)) + (if now then [] else Asked(more, later, attempt + 1))
            && (Accepted(input, results, attempt) <==> now || Accepted(more, later, attempt + 1))
  {
    hide Line, Remaining;
  }
}
