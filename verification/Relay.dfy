/** The PTY relay: a poll loop that copies between a terminal and a PTY master through one buffer,
    with short writes, a transcript, and keystrokes that are recorded only while echo is on. */
module Relay {

  datatype OutFd = Stdout | Master | Log | InputLog

  datatype Streams = Streams(stdout: string, master: string, log: string, inputLog: string) {
    function Append(fd: OutFd, text: string): Streams {
      match fd
      case Stdout => this.(stdout := stdout + text)
      case Master => this.(master := master + text)
      case Log => this.(log := log + text)
      case InputLog => this.(inputLog := inputLog + text)
    }
  }

  /** One return of poll(2): its result, the events reported, and the output that the child had
      written to the slave by then. */
  datatype PollEvent = PollEvent(result: int, masterIn: bool, hup: bool, stdinIn: bool, winchIn: bool,
                                 arrived: string)

  /** A stdin chunk and whether the slave had echo on when it was asked. */
  datatype Keys = Keys(text: string, echoOn: bool)

  function AllText(h: seq<Keys>): string {
    if h == [] then "" else AllText(h[..|h| - 1]) + h[|h| - 1].text
  }

  /** What may be recorded: the chunks seen with echo on, in order. */
  function EchoedText(h: seq<Keys>): string {
    if h == [] then ""
    else EchoedText(h[..|h| - 1]) + if h[|h| - 1].echoOn then h[|h| - 1].text else ""
  }

  /** Chunk by chunk: what is recorded of a chunk is all of it when echo was on, and nothing when it was
      off. */
  lemma {:induction false} RecordedByEcho(a: seq<Keys>, b: seq<Keys>, k: Keys)
    ensures EchoedText(a + b) == EchoedText(a) + EchoedText(b) && AllText(a + b) == AllText(a) + AllText(b)
    ensures EchoedText([k]) == (if k.echoOn then k.text else "") && AllText([k]) == k.text
  {
    assert [k][..0] == [];
    if b == [] {
      assert a + b == a;
    } else {
      var init, last := b[..|b| - 1], b[|b| - 1];
      assert (a + b)[..|a + b| - 1] == a + init;
      RecordedByEcho(a, init, k);
    }
  }

  /** A scripted chunk as one read delivers it. */
  function Delivered(chunk: string): string { if |chunk| <= BUF_SIZE then chunk else chunk[..BUF_SIZE] }

  /** What the first `n` reads deliver. */
  function Taken(script: seq<string>, n: nat): string
    requires n <= |script|
  {
    if n == 0 then "" else Taken(script, n - 1) + Delivered(script[n - 1])
  }

  /** How many chunks come before the first empty one, which is the end of the input. */
  function BeforeEnd(script: seq<string>): (n: nat)
    ensures n <= |script|
    ensures forall i :: 0 <= i < n ==> script[i] != ""
    ensures n < |script| ==> script[n] == ""
  {
    if script == [] || script[0] == "" then 0 else 1 + BeforeEnd(script[1..])
  }

  /** How many polls of the trace succeeded and reported input on stdin, or on the master. */
  function StdinPolls(es: seq<PollEvent>): nat {
    if es == [] then 0
    else
      var last := es[|es| - 1];
      StdinPolls(es[..|es| - 1]) + if last.result >= 0 && last.stdinIn then 1 else 0
  }

  function MasterPolls(es: seq<PollEvent>): nat {
    if es == [] then 0
    else
      var last := es[|es| - 1];
      MasterPolls(es[..|es| - 1]) + if last.result >= 0 && last.masterIn then 1 else 0
  }

  /** The relay goes on after this event: poll was interrupted, or succeeded without a hangup. */
  predicate GoesOn(e: PollEvent) { e.result == -EINTR || (e.result >= 0 && !e.hup) }

  const EINTR := 4
  const BUF_SIZE := 4096
  const SIGINFO_SIZE := 128

  predicate NoWriteError(writes: seq<int>) { forall w :: w in writes ==> w > 0 }

  /** The terminal, the PTY and the log files.  The scripts fix how each system call turns out, so a
      run covers every trace: when a script runs out, reads see the end, writes are complete, echo
      is off, and poll fails, which ends the relay at that point of the trace. */
  class Terminal {
    var polls: seq<PollEvent>
    var stdinReads: seq<string>
    var masterReads: seq<int>
    var winchReads: seq<nat>
    var writes: seq<int>
    var echo: seq<bool>
    // Output of the child that has not been read from the master.
    var pending: string
    var out: Streams
    ghost var fromMaster: string
    ghost var fromStdin: string
    ghost var keys: seq<Keys>
    // What poll returned, how often the master was read, and whether it was at its end.
    ghost var polled: seq<PollEvent>
    ghost var masterTurns: nat
    ghost var ended: bool
    // Poll reports input whenever output is pending, and reading pending output does not fail.
    const faithful: bool

    constructor (polls: seq<PollEvent>, stdinReads: seq<string>, masterReads: seq<int>,
                 winchReads: seq<nat>, writes: seq<int>, echo: seq<bool>, faithful: bool)
      ensures this.writes == writes && this.polls == polls && this.faithful == faithful
      ensures this.stdinReads == stdinReads
      ensures Untouched()
    {
      this.polls, this.stdinReads, this.masterReads := polls, stdinReads, masterReads;
      this.winchReads, this.writes, this.echo, this.faithful := winchReads, writes, echo, faithful;
      pending, out := "", Streams("", "", "", "");
      fromMaster, fromStdin, keys := "", "", [];
      polled, masterTurns, ended := [], 0, false;
    }

    ghost predicate Untouched()
      reads this
    {
      && out == Streams("", "", "", "") && fromMaster == "" && fromStdin == "" && keys == []
      && polled == [] && masterTurns == 0 && !ended
    }

    method Poll() returns (e: PollEvent)
      modifies `polls, `pending, `polled
      ensures polled == old(polled) + [e]
      ensures |old(polls)| > 0 ==>
                && polls == old(polls)[1..]
                && var p := old(polls)[0];
                   e.result == p.result && e.hup == p.hup && e.stdinIn == p.stdinIn && (p.masterIn ==> e.masterIn)
      ensures old(polls) == [] ==> polls == [] && e.result < 0 && e.result != -EINTR
      ensures faithful && e.result >= 0 && pending != "" ==> e.masterIn
    {
      e := PollEvent(-9, false, false, false, false, "");
      if polls != [] {
        e := polls[0];
        polls := polls[1..];
        pending := pending + e.arrived;
        if faithful && pending != "" { e := e.(masterIn := true); }
      }
      polled := polled + [e];
    }

    /** Fill the start of `buf`; the result is the byte count, or not positive. */
    method ReadMaster(buf: array<char>) returns (n: int)
      requires buf.Length == BUF_SIZE
      modifies `masterReads, `pending, `fromMaster, `masterTurns, `ended, buf
      ensures n <= BUF_SIZE && masterTurns == old(masterTurns) + 1 && (ended <==> old(ended) || n <= 0)
      ensures n > 0 ==> fromMaster == old(fromMaster) + buf[..n] && |pending| < |old(pending)|
      ensures n <= 0 ==> fromMaster == old(fromMaster) && pending == old(pending)
      ensures faithful && n <= 0 ==> pending == ""
    {
      var size := BUF_SIZE;
      masterTurns := masterTurns + 1;
      if masterReads != [] { size, masterReads := masterReads[0], masterReads[1..]; }
      if pending == "" { ended := true; return 0; }
      if size <= 0 {
        if !faithful { ended := true; return -1; }
        size := 1;
      }
      n := size;
      if n > BUF_SIZE { n := BUF_SIZE; }
      if n > |pending| { n := |pending|; }
      Fill(buf, pending[..n]);
      fromMaster := fromMaster + pending[..n];
      pending := pending[n..];
    }

    method ReadStdin(buf: array<char>) returns (n: int)
      requires buf.Length == BUF_SIZE
      modifies `stdinReads, `fromStdin, buf
      ensures 0 <= n <= BUF_SIZE
      ensures fromStdin == old(fromStdin) + buf[..n]
      ensures buf[..n] == if old(stdinReads) == [] then "" else Delivered(old(stdinReads)[0])
      ensures stdinReads == if old(stdinReads) == [] then [] else old(stdinReads)[1..]
    {
      n := 0;
      if stdinReads != [] {
        n := if |stdinReads[0]| <= BUF_SIZE then |stdinReads[0]| else BUF_SIZE;
        Fill(buf, stdinReads[0][..n]);
        fromStdin := fromStdin + stdinReads[0][..n];
        stdinReads := stdinReads[1..];
      }
    }

    /** A signal record: it lands in the same buffer. */
    method ReadWinch(buf: array<char>) returns (n: nat)
      requires buf.Length == BUF_SIZE
      modifies `winchReads, buf
      ensures n > 0 ==> |winchReads| < |old(winchReads)|
    {
      n := 0;
      if winchReads != [] {
        n := if winchReads[0] <= SIGINFO_SIZE then winchReads[0] else SIGINFO_SIZE;
        winchReads := winchReads[1..];
        Fill(buf, seq(n, _ => 'w'));
      }
    }

    method Fill(buf: array<char>, text: string)
      requires |text| <= buf.Length
      modifies buf
      ensures buf[..|text|] == text
    {
      forall i | 0 <= i < |text| { buf[i] := text[i]; }
    }

    method Write(fd: OutFd, buf: array<char>, off: nat, len: nat) returns (w: int)
      requires len > 0 && off + len <= buf.Length
      modifies `writes, `out
      ensures w <= len
      ensures out == if w > 0 then old(out).Append(fd, buf[off..off + w]) else old(out)
      ensures NoWriteError(old(writes)) ==> w > 0 && NoWriteError(writes)
    {
      assert writes != [] ==> writes[0] in writes && forall x :: x in writes[1..] ==> x in writes;
      w := len;
      if writes != [] { w, writes := writes[0], writes[1..]; }
      if w > len { w := len; }
      if w > 0 { out := out.Append(fd, buf[off..off + w]); }
    }

    /** Is the slave's echo flag set?  A failed query answers no. */
    method SlaveEchoOn(ghost text: string) returns (on: bool)
      modifies `echo, `keys
      ensures keys == old(keys) + [Keys(text, on)]
    {
      on := false;
      if echo != [] { on, echo := echo[0], echo[1..]; }
      keys := keys + [Keys(text, on)];
    }
  }

  /** Write `n` bytes, retrying short writes: what went out is always a prefix, and the answer is 0
      exactly when it is all of them. */
  method FullWrite(t: Terminal, fd: OutFd, buf: array<char>, n: nat) returns (r: int)
    requires n <= buf.Length
    modifies t`writes, t`out
    ensures r == 0 || r == -1
    ensures exists k :: 0 <= k <= n && t.out == old(t.out).Append(fd, buf[..k]) && (r == 0 <==> k == n)
    ensures NoWriteError(old(t.writes)) ==>
              r == 0 && NoWriteError(t.writes) && t.out == old(t.out).Append(fd, buf[..n])
  {
    var off := 0;
    assert t.out.Append(fd, buf[..0]) == t.out;
    while off < n
      invariant 0 <= off <= n
      invariant t.out == old(t.out).Append(fd, buf[..off])
      invariant NoWriteError(old(t.writes)) ==> NoWriteError(t.writes)
    {
      var w := t.Write(fd, buf, off, n - off);
      if w <= 0 {
        assert t.out == old(t.out).Append(fd, buf[..off]) && off != n;
        return -1;
      }
      assert buf[..off] + buf[off..off + w] == buf[..off + w];
      off := off + w;
    }
    r := 0;
  }

  /** Everything read has been passed on: output to the terminal and, when there is one, the
      transcript; input to the child; echoed input to the keystroke log. */
  ghost predicate Conserved(t: Terminal, hasLog: bool, hasInputLog: bool)
    reads t`out, t`fromMaster, t`fromStdin, t`keys
  {
    && t.out.stdout == t.fromMaster
    && t.out.log == (if hasLog then t.fromMaster else "")
    && t.out.master == t.fromStdin
    && (if hasInputLog then t.out.inputLog == EchoedText(t.keys) && AllText(t.keys) == t.fromStdin
        else t.out.inputLog == "" && t.keys == [])
  }

  /** Copy what the master has: once, or until the end when the child has hung up. */
  method PumpMaster(t: Terminal, buf: array<char>, hup: bool, hasLog: bool, ghost hasInputLog: bool)
    returns (done: bool)
    requires buf.Length == BUF_SIZE && buf != t as object
    modifies t`masterReads, t`pending, t`fromMaster, t`masterTurns, t`ended, t`writes, t`out, buf
    ensures NoWriteError(old(t.writes)) && old(Conserved(t, hasLog, hasInputLog)) ==>
              NoWriteError(t.writes) && Conserved(t, hasLog, hasInputLog)
    ensures t.faithful && (done || hup) ==> t.pending == ""
    ensures hup ==> done
    ensures t.masterTurns > old(t.masterTurns) && (!hup ==> t.masterTurns == old(t.masterTurns) + 1)
    ensures done ==> t.ended
    ensures t.ended ==> old(t.ended) || done
  {
    done := false;
    var reading := true;
    while reading
      invariant NoWriteError(old(t.writes)) && old(Conserved(t, hasLog, hasInputLog)) ==>
                  NoWriteError(t.writes) && Conserved(t, hasLog, hasInputLog)
      invariant done ==> !reading
      invariant t.faithful && done ==> t.pending == ""
      invariant hup && !reading ==> done
      invariant t.masterTurns >= old(t.masterTurns) && (!reading ==> t.masterTurns > old(t.masterTurns))
      invariant !hup ==> t.masterTurns == old(t.masterTurns) + if reading then 0 else 1
      invariant done ==> t.ended
      invariant t.ended ==> old(t.ended) || done
      decreases reading, |t.pending|
    {
      var n := t.ReadMaster(buf);
      if n <= 0 {
        done := true;
        reading := false;
      } else {
        var r := FullWrite(t, Stdout, buf, n);
        if hasLog { r := FullWrite(t, Log, buf, n); }
        if !hup { reading := false; }
      }
    }
  }

  /** Copy one chunk of input; the answer is whether stdin is still open, that is, whether the chunk was
      not empty. */
  method PumpStdin(t: Terminal, buf: array<char>, ghost hasLog: bool, hasInputLog: bool) returns (open: bool)
    requires buf.Length == BUF_SIZE && buf != t as object
    modifies t`stdinReads, t`fromStdin, t`writes, t`out, t`echo, t`keys, buf
    ensures NoWriteError(old(t.writes)) && old(Conserved(t, hasLog, hasInputLog)) ==>
              NoWriteError(t.writes) && Conserved(t, hasLog, hasInputLog)
    ensures var script := old(t.stdinReads);
            && (open <==> script != [] && script[0] != "")
            && t.fromStdin == (if script == [] then old(t.fromStdin) else old(t.fromStdin) + Delivered(script[0]))
            && t.stdinReads == (if script == [] then [] else script[1..])
  {
    var n := t.ReadStdin(buf);
    if n <= 0 { return false; }
    ghost var text := buf[..n];
    var r := FullWrite(t, Master, buf, n);
    if hasInputLog {
      ghost var before := t.keys;
      var on := t.SlaveEchoOn(text);
      assert t.keys[..|before|] == before;
      if on { r := FullWrite(t, InputLog, buf, n); }
    }
    open := true;
  }

  method DrainWinch(t: Terminal, buf: array<char>)
    requires buf.Length == BUF_SIZE && buf != t as object
    modifies t`winchReads, buf
  {
    var dr := true;
    while dr
      decreases dr, |t.winchReads|
    {
      var n := t.ReadWinch(buf);
      if n <= 0 { dr := false; }
    }
  }

  /** What the loop has read from stdin: with `turns` chunks so far, everything that they deliver, and
      they are the polls that reported input, up to the end of the input. */
  ghost predicate StdinKept(read: string, left: seq<string>, polls: nat, script: seq<string>, turns: nat, open: bool) {
    && turns <= BeforeEnd(script) && read == Taken(script, turns)
    && (open ==> turns == polls && left == script[turns..])
    && (!open ==> turns == BeforeEnd(script) && turns < polls)
  }

  /** One turn at stdin, or the end of it. */
  lemma OneTurn(read: string, script: seq<string>, turns: nat)
    requires turns <= |script| && StdinKept(read, script[turns..], turns, script, turns, true)
    ensures var left := script[turns..];
            if left != [] && left[0] != "" then
              StdinKept(read + Delivered(left[0]), left[1..], turns + 1, script, turns + 1, true)
            else
              StdinKept(if left == [] then read else read + Delivered(left[0]), [], turns + 1, script, turns, false)
  {
    if turns < |script| {
      assert script[turns..][1..] == script[turns + 1..];
      assert script[turns] == "" ==> read + Delivered(script[turns]) == read;
    }
  }

  lemma TurnsFit(read: string, left: seq<string>, polls: nat, script: seq<string>, turns: nat)
    requires StdinKept(read, left, polls, script, turns, true)
    ensures turns <= |script| && turns == polls && left == script[turns..]
  {
  }

  lemma TurnsAre(read: string, left: seq<string>, polls: nat, script: seq<string>, turns: nat, open: bool)
    requires StdinKept(read, left, polls, script, turns, open)
    ensures var all := BeforeEnd(script);
            read == Taken(script, if polls <= all then polls else all)
  {
  }

  lemma ClosedStays(read: string, left: seq<string>, left': seq<string>, polls: nat, script: seq<string>,
                    turns: nat, more: nat)
    requires StdinKept(read, left, polls, script, turns, false)
    ensures StdinKept(read, left', polls + more, script, turns, false)
  {
  }

  /** The input half of one round. */
  method ServeStdin(t: Terminal, buf: array<char>, ready: bool, open: bool, ghost hasLog: bool, hasInputLog: bool,
                    ghost polls: nat, ghost script: seq<string>, ghost turns: nat)
    returns (open': bool, ghost turns': nat)
    requires buf.Length == BUF_SIZE && buf != t as object
    requires StdinKept(t.fromStdin, t.stdinReads, polls, script, turns, open)
    modifies t`stdinReads, t`fromStdin, t`writes, t`out, t`echo, t`keys, buf
    ensures NoWriteError(old(t.writes)) && old(Conserved(t, hasLog, hasInputLog)) ==>
              NoWriteError(t.writes) && Conserved(t, hasLog, hasInputLog)
    ensures StdinKept(t.fromStdin, t.stdinReads, polls + if ready then 1 else 0, script, turns', open')
  {
    open', turns' := open, turns;
    if open && ready {
      hide NoWriteError, Conserved;
      TurnsFit(t.fromStdin, t.stdinReads, polls, script, turns);
      OneTurn(t.fromStdin, script, turns);
      hide StdinKept, Delivered;
      open' := PumpStdin(t, buf, hasLog, hasInputLog);
      if open' { turns' := turns + 1; }
      else { ClosedStays(t.fromStdin, [], t.stdinReads, polls + 1, script, turns, 0); }
    } else if !open {
      ClosedStays(t.fromStdin, t.stdinReads, t.stdinReads, polls, script, turns, if ready then 1 else 0);
    }
  }

  predicate NoHup(es: seq<PollEvent>) { forall e :: e in es ==> !e.hup }

  /** A trace so far: while it goes on every event let it, and when it is done the last one ended it. */
  predicate Trace(es: seq<PollEvent>, ended: bool, done: bool) {
    && (!done ==> forall i :: 0 <= i < |es| ==> GoesOn(es[i]))
    && (done ==>
          && es != [] && (forall i :: 0 <= i < |es| - 1 ==> GoesOn(es[i]))
          && es[|es| - 1].result >= 0 && (es[|es| - 1].hup || ended))
  }

  /** A trace that a failed poll ended. */
  predicate FailedTrace(es: seq<PollEvent>) {
    && es != [] && (forall i :: 0 <= i < |es| - 1 ==> GoesOn(es[i]))
    && es[|es| - 1].result < 0 && es[|es| - 1].result != -EINTR
  }

  /** One more poll. */
  lemma PolledOne(before: seq<PollEvent>, e: PollEvent, ended: bool)
    requires Trace(before, false, false)
    ensures var es := before + [e];
            && StdinPolls(es) == StdinPolls(before) + (if e.result >= 0 && e.stdinIn then 1 else 0)
            && MasterPolls(es) == MasterPolls(before) + (if e.result >= 0 && e.masterIn then 1 else 0)
            && (NoHup(es) <==> NoHup(before) && !e.hup)
            && (e.result < 0 ==> if e.result == -EINTR then Trace(es, ended, false) else FailedTrace(es))
            && (e.result >= 0 ==> Trace(es, ended, e.hup) && (ended ==> Trace(es, ended, true)))
  {
    assert (before + [e])[..|before|] == before;
  }

  /** What the loop keeps. */
  ghost predicate Relaying(t: Terminal, clean: bool, hasLog: bool, hasInputLog: bool, script: seq<string>,
                           turns: nat, open: bool, done: bool)
    reads t
  {
    && (clean ==> NoWriteError(t.writes) && Conserved(t, hasLog, hasInputLog))
    && (t.faithful && done ==> t.pending == "")
    && StdinKept(t.fromStdin, t.stdinReads, StdinPolls(t.polled), script, turns, open)
    && t.masterTurns >= MasterPolls(t.polled) && (NoHup(t.polled) ==> t.masterTurns == MasterPolls(t.polled))
    && Trace(t.polled, t.ended, done) && (!done ==> !t.ended)
  }

  /** One round after a poll that succeeded. */
  method ServePoll(t: Terminal, buf: array<char>, e: PollEvent, open: bool, hasLog: bool, hasInputLog: bool,
                   hasWinch: bool, ghost clean: bool, ghost before: seq<PollEvent>, ghost script: seq<string>,
                   ghost turns: nat)
    returns (done: bool, open': bool, ghost turns': nat)
    requires buf.Length == BUF_SIZE && buf != t as object
    requires e.result >= 0 && t.polled == before + [e] && Trace(before, false, false) && !t.ended
    requires clean ==> NoWriteError(t.writes) && Conserved(t, hasLog, hasInputLog)
    requires StdinKept(t.fromStdin, t.stdinReads, StdinPolls(before), script, turns, open)
    requires t.masterTurns >= MasterPolls(before) && (NoHup(before) ==> t.masterTurns == MasterPolls(before))
    requires t.faithful && t.pending != "" ==> e.masterIn
    modifies t`stdinReads, t`fromStdin, t`writes, t`out, t`echo, t`keys, t`winchReads
    modifies t`masterReads, t`pending, t`fromMaster, t`masterTurns, t`ended, buf
    ensures Relaying(t, clean, hasLog, hasInputLog, script, turns', open', done)
  {
    hide NoWriteError, Conserved, StdinPolls, MasterPolls, NoHup, Trace, FailedTrace, StdinKept;
    done := false;
    if hasWinch && e.winchIn { DrainWinch(t, buf); }
    if e.masterIn {
      done := PumpMaster(t, buf, e.hup, hasLog, hasInputLog);
    }
    if e.hup { done := true; }
    PolledOne(before, e, t.ended);
    open', turns' := ServeStdin(t, buf, e.stdinIn, open, hasLog, hasInputLog, StdinPolls(before), script, turns);
  }

  /** The relay; 0 when the child is gone, -1 when poll fails. */
  method SessionRelay(t: Terminal, hasLog: bool, hasInputLog: bool, hasWinch: bool) returns (r: int)
    requires t.Untouched()
    modifies t
    ensures r == 0 || r == -1
    ensures NoWriteError(old(t.writes)) ==> Conserved(t, hasLog, hasInputLog)
    ensures t.faithful && r == 0 ==> t.pending == ""
    // One chunk of input is read for every poll that reports one, up to the end of the input.
    ensures var script := old(t.stdinReads);
            var polls, all := StdinPolls(t.polled), BeforeEnd(script);
            t.fromStdin == Taken(script, if polls <= all then polls else all)
    // The master is read for every poll that reports output, once unless the child hung up.
    ensures t.masterTurns >= MasterPolls(t.polled)
    ensures NoHup(t.polled) ==> t.masterTurns == MasterPolls(t.polled)
    // It goes on until the child hangs up, the master is at its end, or poll fails.
    ensures r == 0 ==> Trace(t.polled, t.ended, true)
    ensures r == -1 ==> FailedTrace(t.polled)
  {
    var buf := new char[BUF_SIZE];
    var stdinOpen, done := true, false;
    ghost var clean, script, turns := NoWriteError(t.writes), t.stdinReads, 0;
    NothingYet(script);
    hide NoWriteError, Conserved, StdinPolls, MasterPolls, NoHup, Trace, FailedTrace, StdinKept, BeforeEnd, Taken;
    while !done
      invariant Relaying(t, clean, hasLog, hasInputLog, script, turns, stdinOpen, done)
      decreases |t.polls|, !done
    {
      ghost var before := t.polled;
      var e := t.Poll();
      PolledOne(before, e, t.ended);
      if e.result < 0 {
        if e.result == -EINTR { continue; }
        TurnsAre(t.fromStdin, t.stdinReads, StdinPolls(before), script, turns, stdinOpen);
        return -1;
      }
      done, stdinOpen, turns := ServePoll(t, buf, e, stdinOpen, hasLog, hasInputLog, hasWinch, clean, before,
                                          script, turns);
    }
    TurnsAre(t.fromStdin, t.stdinReads, StdinPolls(t.polled), script, turns, stdinOpen);
    r := 0;
  }

  lemma NothingYet(script: seq<string>)
    ensures StdinPolls([]) == 0 && MasterPolls([]) == 0 && Trace([], false, false)
    ensures StdinKept("", script, 0, script, 0, true)
  {
    assert script[0..] == script;
  }

  // ---- When a PTY is used ----------------------------------------------------------------

  /** Logging, or a target that is neither the caller nor root, takes the PTY path. */
  function NeedsPty(doLog: bool, callerUid: nat, targetUid: nat): bool {
    if doLog then true
    else if targetUid == callerUid then false
    else if targetUid == 0 then false
    else true
  }
}
