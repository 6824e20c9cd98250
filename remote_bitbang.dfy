/**
 * The OpenOCD remote_bitbang server that drives the JTAG TAP.
 *
 * The debugger sends one-character commands over a socket: '0'..'7' set the
 * TCK, TMS and TDI pins, 'r' resets the TAP, 'R' asks for TDO (answered with
 * '1' or '0'), 'B'/'b' switch an LED and 'Q' ends the session.  One call of
 * `execute_commands` works through the received bytes, and reads more while
 * the budget allows; it stops early whenever the TAP reaches Run-Test/Idle so
 * that the hart can run and finish a pending debug-module access.
 *
 * `RunBatch` and `Execute` state what one batch and one call do, over `Tap`
 * values; the class `Bitbang` keeps the receive and send buffers as arrays
 * and is proved to do exactly that.  Socket reads are a parameter sequence of
 * `ReadResult`s; the bytes written back are returned.
 */
module RemoteBitbang {
  import opened Wrappers
  import opened JtagDtm

  /** The size of the receive and send buffers, and the per-call command budget. */
  const BufSize: nat := 64 * 1024

  /** The pin values one of the commands '0'..'7' sets. */
  datatype Pins = Pins(tck: bool, tms: bool, tdi: bool)

  /** The pin command table. */
  function PinsOf(c: char): Option<Pins>
  {
    match c
    case '0' => Some(Pins(false, false, false))
    case '1' => Some(Pins(false, false, true))
    case '2' => Some(Pins(false, true, false))
    case '3' => Some(Pins(false, true, true))
    case '4' => Some(Pins(true, false, false))
    case '5' => Some(Pins(true, false, true))
    case '6' => Some(Pins(true, true, false))
    case '7' => Some(Pins(true, true, true))
    case _ => None
  }

  /** The digits '0'..'7' are exactly the pin commands, and encode TCK, TMS, TDI as bits 2, 1, 0. */
  lemma PinsAreBits(c: char)
    ensures PinsOf(c).Some? <==> '0' <= c <= '7'
    ensures '0' <= c <= '7' ==>
      var v := c as int - '0' as int;
      PinsOf(c).value == Pins(v / 4 % 2 == 1, v / 2 % 2 == 1, v % 2 == 1)
  {
  }

  /** What one command does: the TAP afterwards, the bytes it answers, and whether it asks to quit. */
  datatype Effect = Effect(tap: Tap, reply: seq<char>, quit: bool)

  function CommandEffect(t: Tap, c: char, required: nat, dm: DmiPort): (e: Effect)
    ensures |e.reply| == if c == 'R' then 1 else 0
    ensures c == 'R' ==> e.reply[0] == (if t.tdo then '1' else '0')
    ensures e.quit <==> c == 'Q'
    ensures PinsOf(c).None? && c != 'r' ==> e.tap == t
  {
    if c == 'r' then Effect(ResetTap(t), [], false)
    else if c == 'R' then Effect(t, [if t.tdo then '1' else '0'], false)
    else if c == 'Q' then Effect(t, [], true)
    else
      match PinsOf(c)
      case Some(p) => Effect(SetPinsOf(t, p.tck, p.tms, p.tdi, required, dm), [], false)
      case None => Effect(t, [], false)
  }

  /** `CommandEffect` with the TAP's configuration fixed: what the server does with one command. */
  function Interpreter(required: nat, dm: DmiPort): (Tap, char) -> Effect
  {
    (t: Tap, c: char) => CommandEffect(t, c, required, dm)
  }

  /** What the batch loop relies on: 'R' answers one byte, every other command none, and 'Q' alone quits. */
  ghost predicate Responds(cmd: (Tap, char) -> Effect)
  {
    forall t: Tap, c: char {:trigger cmd(t, c)} :: |cmd(t, c).reply| == (if c == 'R' then 1 else 0) && (cmd(t, c).quit <==> c == 'Q')
  }

  lemma InterpreterResponds(required: nat, dm: DmiPort)
    ensures Responds(Interpreter(required, dm))
  {
    forall t: Tap, c: char
      ensures |Interpreter(required, dm)(t, c).reply| == (if c == 'R' then 1 else 0)
      ensures Interpreter(required, dm)(t, c).quit <==> c == 'Q'
    {
      var e := CommandEffect(t, c, required, dm);
    }
  }

  /**
   * `cmd` does what `CommandEffect` does, on every TAP and command.  The
   * equation is only instantiated where `CommandEffect` itself appears, so
   * that reasoning about `cmd` stays abstract elsewhere.
   */
  ghost predicate Drives(cmd: (Tap, char) -> Effect, required: nat, dm: DmiPort)
  {
    forall t: Tap, c: char {:trigger CommandEffect(t, c, required, dm)} :: cmd(t, c) == CommandEffect(t, c, required, dm)
  }

  lemma InterpreterDrives(required: nat, dm: DmiPort)
    ensures Drives(Interpreter(required, dm), required, dm)
  {
  }

  /** The number of 'R' commands in `s`, which is the number of bytes they answer. */
  function ReadCount(s: seq<char>): (n: nat)
    ensures n <= |s|
  {
    if s == [] then 0 else (if s[0] == 'R' then 1 else 0) + ReadCount(s[1..])
  }

  /**
   * The inner loop over the received commands `buf[i..]`: where it stopped,
   * the TAP and the answers, the quit and entered-RTI flags, and `in_rti`.
   */
  datatype Batch = Batch(tap: Tap, next: nat, reply: seq<char>, quit: bool, enteredRti: bool, inRti: bool)

  function RunBatch(t: Tap, buf: seq<char>, i: nat, inRti: bool, quit: bool, cmd: (Tap, char) -> Effect): (b: Batch)
    requires i <= |buf|
    ensures i <= b.next <= |buf|
    decreases |buf| - i
  {
    if i == |buf| then Batch(t, i, [], quit, false, inRti)
    else
      var e := cmd(t, buf[i]);
      if !inRti && e.tap.state == RunTestIdle then
        Batch(e.tap, i + 1, e.reply, quit || e.quit, true, inRti)
      else
        Continued(e.reply, RunBatch(e.tap, buf, i + 1, false, quit || e.quit, cmd))
  }

  /** Counting 'R's and looking for 'Q' in `buf[i..j]` looks at `buf[i]`, then at `buf[i + 1..j]`. */
  lemma SliceStep(buf: seq<char>, i: nat, j: nat)
    requires i < j <= |buf|
    ensures ReadCount(buf[i..j]) == (if buf[i] == 'R' then 1 else 0) + ReadCount(buf[i + 1..j])
    ensures 'Q' in buf[i..j] <==> buf[i] == 'Q' || 'Q' in buf[i + 1..j]
  {
    assert buf[i..j] == [buf[i]] + buf[i + 1..j];
  }

  /** A batch answers one byte per 'R' it ran, and has seen a quit exactly when it ran a 'Q' (or one came before). */
  lemma {:induction false} BatchReplies(t: Tap, buf: seq<char>, i: nat, inRti: bool, quit: bool, cmd: (Tap, char) -> Effect)
    requires i <= |buf| && Responds(cmd)
    ensures var b := RunBatch(t, buf, i, inRti, quit, cmd);
      && |b.reply| == ReadCount(buf[i..b.next])
      && (b.quit <==> quit || 'Q' in buf[i..b.next])
    decreases |buf| - i
  {
    if i < |buf| {
      var e := cmd(t, buf[i]);
      if inRti || e.tap.state != RunTestIdle {
        var rest := RunBatch(e.tap, buf, i + 1, false, quit || e.quit, cmd);
        BatchReplies(e.tap, buf, i + 1, false, quit || e.quit, cmd);
        SliceStep(buf, i, rest.next);
      } else {
        SliceStep(buf, i, i + 1);
      }
    }
  }

  /**
   * A batch runs at least one command when there is one, and stops short of
   * the end of the buffer only by entering Run-Test/Idle.
   */
  lemma {:induction false} BatchBounds(t: Tap, buf: seq<char>, i: nat, inRti: bool, quit: bool, cmd: (Tap, char) -> Effect)
    requires i <= |buf|
    ensures var b := RunBatch(t, buf, i, inRti, quit, cmd);
      && (i < |buf| ==> i < b.next)
      && (b.next < |buf| ==> b.enteredRti)
      && (b.enteredRti ==> b.tap.state == RunTestIdle && i < b.next)
    decreases |buf| - i
  {
    if i < |buf| {
      var e := cmd(t, buf[i]);
      if inRti || e.tap.state != RunTestIdle {
        BatchBounds(e.tap, buf, i + 1, false, quit || e.quit, cmd);
      }
    }
  }

  /** A batch result after the answers `reply` already given. */
  function Continued(reply: seq<char>, b: Batch): Batch
  {
    b.(reply := reply + b.reply)
  }

  /**
   * The loop invariant of the batch loop: after `k` commands of `buf`, with
   * TAP `t`, answers `sent` and the flags, the batch from `t0` is either
   * finished (`entered`) or is what remains, after `sent`.
   */
  ghost predicate Batching(t0: Tap, buf: seq<char>, inRti0: bool, quit0: bool, cmd: (Tap, char) -> Effect,
                           t: Tap, k: nat, sent: seq<char>, quit: bool, entered: bool, inRti: bool)
  {
    && k <= |buf|
    && (entered ==> RunBatch(t0, buf, 0, inRti0, quit0, cmd) == Batch(t, k, sent, quit, true, inRti))
    && (!entered ==> RunBatch(t0, buf, 0, inRti0, quit0, cmd) == Continued(sent, RunBatch(t, buf, k, inRti, quit, cmd)))
  }

  /** One command of the batch loop keeps its invariant; `stop` is the test of the loop's `break`. */
  lemma BatchStep(t0: Tap, buf: seq<char>, inRti0: bool, quit0: bool, cmd: (Tap, char) -> Effect,
                  t: Tap, k: nat, sent: seq<char>, quit: bool, inRti: bool)
    returns (e: Effect, stop: bool)
    requires Batching(t0, buf, inRti0, quit0, cmd, t, k, sent, quit, false, inRti) && k < |buf|
    ensures e == cmd(t, buf[k]) && stop == (!inRti && e.tap.state == RunTestIdle)
    ensures Batching(t0, buf, inRti0, quit0, cmd, e.tap, k + 1, sent + e.reply, quit || e.quit, stop, false)
  {
    e := cmd(t, buf[k]);
    stop := !inRti && e.tap.state == RunTestIdle;
    if !stop {
      var rest := RunBatch(e.tap, buf, k + 1, false, quit || e.quit, cmd);
      assert RunBatch(t, buf, k, inRti, quit, cmd) == Continued(e.reply, rest);
    }
  }

  lemma BatchDone(t0: Tap, buf: seq<char>, inRti0: bool, quit0: bool, cmd: (Tap, char) -> Effect,
                  t: Tap, k: nat, sent: seq<char>, quit: bool, entered: bool, inRti: bool)
    requires Batching(t0, buf, inRti0, quit0, cmd, t, k, sent, quit, entered, inRti) && (entered || k == |buf|)
    ensures RunBatch(t0, buf, 0, inRti0, quit0, cmd) == Batch(t, k, sent, quit, entered, inRti)
  {
  }

  /** The TAP after the commands `buf[i..j]`, one after another. */
  function TapAfter(t: Tap, buf: seq<char>, i: nat, j: nat, cmd: (Tap, char) -> Effect): Tap
    requires i <= j <= |buf|
    decreases j - i
  {
    if i == j then t else TapAfter(cmd(t, buf[i]).tap, buf, i + 1, j, cmd)
  }

  /**
   * The batch test after the command that ends at `j`: the TAP is in
   * Run-Test/Idle, unless this is the first command and the TAP was already
   * in Run-Test/Idle when the call began.
   */
  predicate StopsAfter(t: Tap, buf: seq<char>, i: nat, inRti: bool, j: nat, cmd: (Tap, char) -> Effect)
    requires i <= j <= |buf|
  {
    TapAfter(t, buf, i, j, cmd).state == RunTestIdle && !(j == i + 1 && inRti)
  }

  /**
   * A batch runs the commands up to the first one after which the TAP is in
   * Run-Test/Idle (not counting the first when it already was), and no further.
   */
  lemma {:induction false} BatchStopsInIdle(t: Tap, buf: seq<char>, i: nat, inRti: bool, quit: bool, cmd: (Tap, char) -> Effect)
    requires i <= |buf|
    ensures var b := RunBatch(t, buf, i, inRti, quit, cmd);
      && b.tap == TapAfter(t, buf, i, b.next, cmd)
      && (forall j :: i < j < b.next ==> !StopsAfter(t, buf, i, inRti, j, cmd))
      && (b.enteredRti <==> i < b.next && StopsAfter(t, buf, i, inRti, b.next, cmd))
    decreases |buf| - i
  {
    if i < |buf| {
      var e := cmd(t, buf[i]);
      if inRti || e.tap.state != RunTestIdle {
        var rest := RunBatch(e.tap, buf, i + 1, false, quit || e.quit, cmd);
        BatchStopsInIdle(e.tap, buf, i + 1, false, quit || e.quit, cmd);
        forall j | i + 1 < j <= rest.next
          ensures TapAfter(t, buf, i, j, cmd) == TapAfter(e.tap, buf, i + 1, j, cmd)
        {
        }
        forall j | i < j < rest.next
          ensures !StopsAfter(t, buf, i, inRti, j, cmd)
        {
          if j > i + 1 {
            assert !StopsAfter(e.tap, buf, i + 1, false, j, cmd);
          } else {
            assert TapAfter(t, buf, i, j, cmd) == TapAfter(e.tap, buf, i + 1, i + 1, cmd);
          }
        }
      }
    }
  }

  // ---------------------------------------------------------------------
  // One call of execute_commands
  // ---------------------------------------------------------------------

  /** What a non-blocking `read` of the socket gives: bytes, end of stream (no bytes), EAGAIN, or an error. */
  datatype ReadResult = Received(data: seq<char>) | WouldBlock | ReadFailed

  /** How the call ends: back to the simulation, the client gone, or the process exiting on a socket error. */
  datatype Outcome = Yield | Disconnected | Failed

  /** The result of one call: the TAP, the commands still buffered, the bytes sent, the outcome, the commands run. */
  datatype Session = Session(tap: Tap, pending: seq<char>, sent: seq<char>, outcome: Outcome, processed: nat)

  /**
   * One call of execute_commands, from the buffered commands `pending` and
   * then the successive `incoming` reads (none left means EAGAIN).  `total`
   * commands have been run and `sent` answered so far.  With `closeOnQuit` a
   * 'Q' closes the connection; without it the call behaves as the source is
   * written, where the test of `quit` before the read makes the one after it
   * unreachable.
   */
  function Execute(t: Tap, pending: seq<char>, incoming: seq<ReadResult>, total: nat, sent: seq<char>, quit: bool, inRti: bool,
                   cmd: (Tap, char) -> Effect, closeOnQuit: bool): (s: Session)
    ensures s.outcome == Yield && s.pending != [] ==> s.tap.state == RunTestIdle
    ensures s.outcome != Yield ==> s.pending == []
    ensures s.processed >= total
    decreases |incoming|
  {
    BatchBounds(t, pending, 0, inRti, quit, cmd);
    var b := RunBatch(t, pending, 0, inRti, quit, cmd);
    var total' := total + b.next;
    var sent' := sent + b.reply;
    if closeOnQuit && b.quit then Session(b.tap, [], sent', Disconnected, total')
    else if total' > BufSize || b.quit || b.enteredRti then Session(b.tap, pending[b.next..], sent', Yield, total')
    else if incoming == [] || incoming[0].WouldBlock? then Session(b.tap, [], sent', Yield, total')
    else if incoming[0].ReadFailed? then Session(b.tap, [], sent', Failed, total')
    else if incoming[0].data == [] then Session(b.tap, [], sent', Disconnected, total')
    else Execute(b.tap, incoming[0].data, incoming[1..], total', sent', b.quit, b.inRti, cmd, closeOnQuit)
  }

  /** Every read returns at most a buffer's worth of bytes. */
  ghost predicate ReadsFit(incoming: seq<ReadResult>)
  {
    forall k :: 0 <= k < |incoming| && incoming[k].Received? ==> |incoming[k].data| <= BufSize
  }

  /** The reads after the first fit as well. */
  lemma ReadsFitTail(incoming: seq<ReadResult>)
    requires ReadsFit(incoming) && incoming != []
    ensures ReadsFit(incoming[1..])
  {
    forall k | 0 <= k < |incoming| - 1 && incoming[1..][k].Received?
      ensures |incoming[1..][k].data| <= BufSize
    {
      assert incoming[1..][k] == incoming[k + 1];
    }
  }

  /** When a batch neither quits, nor enters Run-Test/Idle, nor exhausts the budget, and a read brings bytes, the call goes on with them. */
  lemma ExecuteContinues(t: Tap, pending: seq<char>, incoming: seq<ReadResult>, total: nat, sent: seq<char>, quit: bool, inRti: bool,
                         cmd: (Tap, char) -> Effect, closeOnQuit: bool)
    requires var b := RunBatch(t, pending, 0, inRti, quit, cmd);
      && !(closeOnQuit && b.quit) && !(total + b.next > BufSize || b.quit || b.enteredRti)
      && incoming != [] && incoming[0].Received? && incoming[0].data != []
    ensures var b := RunBatch(t, pending, 0, inRti, quit, cmd);
      Execute(t, pending, incoming, total, sent, quit, inRti, cmd, closeOnQuit)
      == Execute(b.tap, incoming[0].data, incoming[1..], total + b.next, sent + b.reply, b.quit, b.inRti, cmd, closeOnQuit)
  {
  }

  /**
   * What is left of an `Execute` call with 'Q' closing the connection once
   * its batch has run and neither ended the call: the read decides.
   */
  ghost predicate AwaitsRead(spec: Session, t: Tap, incoming: seq<ReadResult>, total: nat, sent: seq<char>, inRti: bool,
                             cmd: (Tap, char) -> Effect)
  {
    if incoming == [] || incoming[0].WouldBlock? then spec == Session(t, [], sent, Yield, total)
    else if incoming[0].ReadFailed? then spec == Session(t, [], sent, Failed, total)
    else if incoming[0].data == [] then spec == Session(t, [], sent, Disconnected, total)
    else spec == Execute(t, incoming[0].data, incoming[1..], total, sent, false, inRti, cmd, true)
  }

  /** How `Execute` with 'Q' closing the connection ends when its batch quits, enters Run-Test/Idle or exhausts the budget. */
  lemma ExecuteStops(spec: Session, t: Tap, pending: seq<char>, incoming: seq<ReadResult>, total: nat, sent: seq<char>,
                     inRti: bool, cmd: (Tap, char) -> Effect, t': Tap, total': nat, sent': seq<char>,
                     quit: bool, entered: bool, inRti': bool)
    requires spec == Execute(t, pending, incoming, total, sent, false, inRti, cmd, true)
    requires total <= total' && |sent| <= |sent'| && sent'[..|sent|] == sent
    requires RunBatch(t, pending, 0, inRti, false, cmd) == Batch(t', total' - total, sent'[|sent|..], quit, entered, inRti')
    ensures quit ==> spec == Session(t', [], sent', Disconnected, total')
    ensures !quit && (total' > BufSize || entered) ==> spec == Session(t', pending[total' - total..], sent', Yield, total')
  {
    assert sent + sent'[|sent|..] == sent';
  }

  /** Otherwise the read that follows decides. */
  lemma ExecuteAwaits(spec: Session, t: Tap, pending: seq<char>, incoming: seq<ReadResult>, total: nat, sent: seq<char>,
                      inRti: bool, cmd: (Tap, char) -> Effect, t': Tap, total': nat, sent': seq<char>, inRti': bool)
    requires spec == Execute(t, pending, incoming, total, sent, false, inRti, cmd, true)
    requires total <= total' <= BufSize && |sent| <= |sent'| && sent'[..|sent|] == sent
    requires RunBatch(t, pending, 0, inRti, false, cmd) == Batch(t', total' - total, sent'[|sent|..], false, false, inRti')
    ensures AwaitsRead(spec, t', incoming, total', sent', inRti', cmd)
  {
    assert sent + sent'[|sent|..] == sent';
    if incoming == [] || incoming[0].WouldBlock? {
      assert spec == Session(t', [], sent', Yield, total');
    } else if incoming[0].ReadFailed? {
      assert spec == Session(t', [], sent', Failed, total');
    } else if incoming[0].data == [] {
      assert spec == Session(t', [], sent', Disconnected, total');
    } else {
      ExecuteContinues(t, pending, incoming, total, sent, false, inRti, cmd, true);
    }
  }

  /** Otherwise the call ends after this batch. */
  lemma ExecuteEnds(t: Tap, pending: seq<char>, incoming: seq<ReadResult>, total: nat, sent: seq<char>, quit: bool, inRti: bool,
                    cmd: (Tap, char) -> Effect, closeOnQuit: bool)
    requires var b := RunBatch(t, pending, 0, inRti, quit, cmd);
      || (closeOnQuit && b.quit) || total + b.next > BufSize || b.quit || b.enteredRti
      || incoming == [] || !incoming[0].Received? || incoming[0].data == []
    ensures Execute(t, pending, incoming, total, sent, quit, inRti, cmd, closeOnQuit).processed
      == total + RunBatch(t, pending, 0, inRti, quit, cmd).next
  {
  }

  /** One call runs at most twice the buffer size of commands, so it cannot starve the simulation. */
  lemma {:induction false} BoundedWork(t: Tap, pending: seq<char>, incoming: seq<ReadResult>, total: nat, sent: seq<char>, quit: bool, inRti: bool,
                                       cmd: (Tap, char) -> Effect, closeOnQuit: bool)
    requires ReadsFit(incoming)
    requires total <= BufSize && |pending| <= BufSize
    ensures Execute(t, pending, incoming, total, sent, quit, inRti, cmd, closeOnQuit).processed <= 2 * BufSize
    decreases |incoming|
  {
    var b := RunBatch(t, pending, 0, inRti, quit, cmd);
    assert b.next <= BufSize;
    if !(closeOnQuit && b.quit) && !(total + b.next > BufSize || b.quit || b.enteredRti)
      && incoming != [] && incoming[0].Received? && incoming[0].data != [] {
      assert |incoming[0].data| <= BufSize;
      ReadsFitTail(incoming);
      BoundedWork(b.tap, incoming[0].data, incoming[1..], total + b.next, sent + b.reply, b.quit, b.inRti, cmd, closeOnQuit);
      ContinuesBounded(t, pending, incoming, total, sent, quit, inRti, cmd, closeOnQuit);
    } else {
      ExecuteEnds(t, pending, incoming, total, sent, quit, inRti, cmd, closeOnQuit);
    }
  }

  /** The bound carries over from the rest of a call to the whole. */
  lemma ContinuesBounded(t: Tap, pending: seq<char>, incoming: seq<ReadResult>, total: nat, sent: seq<char>, quit: bool, inRti: bool,
                         cmd: (Tap, char) -> Effect, closeOnQuit: bool)
    requires var b := RunBatch(t, pending, 0, inRti, quit, cmd);
      && !(closeOnQuit && b.quit) && !(total + b.next > BufSize || b.quit || b.enteredRti)
      && incoming != [] && incoming[0].Received? && incoming[0].data != []
      && Execute(b.tap, incoming[0].data, incoming[1..], total + b.next, sent + b.reply, b.quit, b.inRti, cmd, closeOnQuit).processed
         <= 2 * BufSize
    ensures Execute(t, pending, incoming, total, sent, quit, inRti, cmd, closeOnQuit).processed <= 2 * BufSize
  {
    ExecuteContinues(t, pending, incoming, total, sent, quit, inRti, cmd, closeOnQuit);
  }

  /** As written, a call that has run a 'Q' always returns to the simulation with the connection open. */
  lemma QuitKeepsConnection(t: Tap, pending: seq<char>, incoming: seq<ReadResult>, total: nat, inRti: bool, cmd: (Tap, char) -> Effect)
    requires Responds(cmd) && 'Q' in pending[..RunBatch(t, pending, 0, inRti, false, cmd).next]
    ensures Execute(t, pending, incoming, total, [], false, inRti, cmd, false).outcome == Yield
  {
    BatchReplies(t, pending, 0, inRti, false, cmd);
  }

  /** With the quit test placed as intended, a call that has run a 'Q' closes the connection. */
  lemma QuitDisconnects(t: Tap, pending: seq<char>, incoming: seq<ReadResult>, total: nat, inRti: bool, cmd: (Tap, char) -> Effect)
    requires Responds(cmd) && 'Q' in pending[..RunBatch(t, pending, 0, inRti, false, cmd).next]
    ensures Execute(t, pending, incoming, total, [], false, inRti, cmd, true).outcome == Disconnected
  {
    BatchReplies(t, pending, 0, inRti, false, cmd);
  }


  // ---------------------------------------------------------------------
  // The server object
  // ---------------------------------------------------------------------

  /**
   * The bytes the write loop after a batch puts on the socket as written:
   * each `write` starts at the bytes already sent but asks for the whole
   * `offset` again.  `accepted` is how much each successive call takes (a
   * call past its end takes all it is given).  Once a call takes less than
   * asked, the next one runs past the reply into stale buffer bytes.  The
   * buffer is taken large enough that no call reads past its end.
   */
  function WireAsWritten(buf: seq<char>, offset: nat, sent: nat, accepted: seq<nat>): (w: seq<char>)
    requires sent < offset && 2 * offset <= |buf|
    ensures offset <= sent + |w| < 2 * offset && w == buf[sent..sent + |w|]
    decreases |accepted|
  {
    var n := if accepted == [] || accepted[0] >= offset then offset else accepted[0];
    if sent + n >= offset then buf[sent..sent + n]
    else buf[sent..sent + n] + WireAsWritten(buf, offset, sent + n, accepted[1..])
  }

  /** A partial first write of a two-byte reply puts a third, stale byte on the socket. */
  lemma PartialWriteResends()
    ensures WireAsWritten("10xy", 2, 0, [1]) == "10x"
  {
    assert WireAsWritten("10xy", 2, 1, []) == "0x";
  }

  /** remote_bitbang_t: the TAP it drives, its two buffers and the receive cursor. */
  class Bitbang {
    const tap: Dtm
    const recvBuf: array<char>
    const sendBuf: array<char>
    /** The command interpreter of `tap`, as a value the batch functions take. */
    ghost const interp: (Tap, char) -> Effect
    /** The unprocessed commands are `recvBuf[recvStart..recvEnd]`; a read that failed leaves `recvEnd == -1`. */
    var recvStart: int
    var recvEnd: int
    /** Whether a client is connected (`client_fd` is a descriptor). */
    var connected: bool

    ghost predicate Valid()
      reads this, tap
    {
      && tap.Valid()
      && recvBuf.Length == BufSize && sendBuf.Length == BufSize && recvBuf != sendBuf
      && (if recvEnd == -1 then recvStart == 0 else 0 <= recvStart <= recvEnd <= BufSize)
    }

    /** The received commands not yet run. */
    function Pending(): (p: seq<char>)
      requires 0 <= recvStart && recvEnd <= recvBuf.Length
      reads this, recvBuf
      ensures |p| <= recvBuf.Length
    {
      if recvStart < recvEnd then recvBuf[recvStart..recvEnd] else []
    }

    /** A server for `tap` with empty buffers and no client yet. */
    constructor(tap: Dtm)
      requires tap.Valid()
      ensures Valid() && this.tap == tap && interp == Interpreter(tap.requiredRtiCycles, tap.dm)
      ensures Drives(interp, tap.requiredRtiCycles, tap.dm)
      ensures Pending() == [] && !connected
    {
      this.tap := tap;
      interp := Interpreter(tap.requiredRtiCycles, tap.dm);
      InterpreterDrives(tap.requiredRtiCycles, tap.dm);
      recvBuf := new char[BufSize];
      sendBuf := new char[BufSize];
      recvStart, recvEnd := 0, 0;
      connected := false;
    }

    /** One command of the switch in execute_commands; an 'R' answer goes to `sendBuf[offset]`. */
    method Perform(c: char, offset: nat) returns (offset': nat, quit: bool)
      requires tap.Valid() && sendBuf.Length == BufSize && offset < BufSize
      modifies tap, sendBuf
      ensures tap.Valid()
      ensures var e := CommandEffect(old(tap.Regs()), c, tap.requiredRtiCycles, tap.dm);
        && tap.Regs() == e.tap && quit == e.quit
        && offset' == offset + |e.reply| && sendBuf[..offset'] == old(sendBuf[..offset]) + e.reply
    {
      offset', quit := offset, false;
      match c
      case 'B' =>
      case 'b' =>
      case 'r' => tap.Reset();
      case '0' => tap.SetPins(false, false, false);
      case '1' => tap.SetPins(false, false, true);
      case '2' => tap.SetPins(false, true, false);
      case '3' => tap.SetPins(false, true, true);
      case '4' => tap.SetPins(true, false, false);
      case '5' => tap.SetPins(true, false, true);
      case '6' => tap.SetPins(true, true, false);
      case '7' => tap.SetPins(true, true, true);
      case 'R' =>
        sendBuf[offset] := if tap.tdo then '1' else '0';
        offset' := offset + 1;
      case 'Q' => quit := true;
      case _ =>
    }

    /**
     * The state part of the invariant of the inner loop of execute_commands:
     * the commands `buf` were buffered at `start`, the `k` before
     * `recvStart` have run, the TAP is `t` and their answers `sent` fill
     * `sendBuf[..sendOffset]`.
     */
    ghost predicate Looping(buf: seq<char>, start: int, k: nat, t: Tap, sent: seq<char>, sendOffset: nat)
      reads this, tap, recvBuf, sendBuf
    {
      && Valid() && 0 <= start && k == recvStart - start && recvStart <= recvEnd && buf == recvBuf[start..recvEnd]
      && sendOffset <= k && t == tap.Regs() && sent == sendBuf[..sendOffset]
    }

    /**
     * The inner loop of execute_commands: run buffered commands until the
     * buffer is empty or Run-Test/Idle is entered.  The caller adds the
     * `recvStart` advance to its count of processed commands.
     */
    method ProcessBatch(inRti: bool, quit: bool) returns (sendOffset: nat, inRti': bool, quit': bool, enteredRti: bool)
      requires Valid() && recvStart < recvEnd && Drives(interp, tap.requiredRtiCycles, tap.dm)
      modifies this, tap, sendBuf
      ensures Valid() && recvEnd == old(recvEnd) && connected == old(connected) && sendOffset <= BufSize
      ensures old(recvStart) <= recvStart && Pending() == old(Pending())[recvStart - old(recvStart)..]
      ensures RunBatch(old(tap.Regs()), old(Pending()), 0, inRti, quit, interp)
        == Batch(tap.Regs(), recvStart - old(recvStart), sendBuf[..sendOffset], quit', enteredRti, inRti')
    {
      ghost var buf, t0, start := Pending(), tap.Regs(), recvStart;
      assert Continued([], RunBatch(t0, buf, 0, inRti, quit, interp)) == RunBatch(t0, buf, 0, inRti, quit, interp);
      assert sendBuf[..0] == [];
      ghost var k, t, sent := 0, t0, [];
      sendOffset, inRti', quit', enteredRti := 0, inRti, quit, false;
      while recvStart < recvEnd && !enteredRti
        invariant Looping(buf, start, k, t, sent, sendOffset)
        invariant Batching(t0, buf, inRti, quit, interp, t, k, sent, quit', enteredRti, inRti')
        invariant recvEnd == old(recvEnd) && connected == old(connected)
        decreases recvEnd - recvStart
      {
        sendOffset, inRti', quit', enteredRti, t, sent := BatchPass(t0, buf, inRti, quit, start, k, t, sent, sendOffset, inRti', quit');
        k := k + 1;
      }
      BatchDone(t0, buf, inRti, quit, interp, t, k, sent, quit', enteredRti, inRti');
      assert t == tap.Regs() && sent == sendBuf[..sendOffset] && k == recvStart - start;
    }

    /** One pass of the inner loop keeps its invariant. */
    method BatchPass(ghost t0: Tap, ghost buf: seq<char>, ghost inRti0: bool, ghost quit0: bool, ghost start: int,
                     ghost k: nat, ghost t: Tap, ghost sent: seq<char>, sendOffset: nat, inRti: bool, quit: bool)
      returns (sendOffset': nat, inRti': bool, quit': bool, entered: bool, ghost t': Tap, ghost sent': seq<char>)
      requires Looping(buf, start, k, t, sent, sendOffset) && recvStart < recvEnd
      requires Batching(t0, buf, inRti0, quit0, interp, t, k, sent, quit, false, inRti)
      requires Drives(interp, tap.requiredRtiCycles, tap.dm)
      modifies this, tap, sendBuf
      ensures Looping(buf, start, k + 1, t', sent', sendOffset')
      ensures Batching(t0, buf, inRti0, quit0, interp, t', k + 1, sent', quit', entered, inRti')
      ensures recvEnd == old(recvEnd) && connected == old(connected)
    {
      assert recvBuf[recvStart] == buf[k];
      ghost var e, stop := BatchStep(t0, buf, inRti0, quit0, interp, t, k, sent, quit, inRti);
      sendOffset', inRti', quit', entered := RunCommand(sendOffset, inRti, quit);
      t', sent' := e.tap, sent + e.reply;
    }

    /**
     * One pass of the inner loop: run the command at `recvStart`, advance
     * past it, and test whether the TAP has just entered Run-Test/Idle.
     * `in_rti` is false afterwards either way, since the test needs it false.
     */
    method RunCommand(sendOffset: nat, inRti: bool, quit: bool) returns (sendOffset': nat, inRti': bool, quit': bool, entered: bool)
      requires Valid() && 0 <= recvStart < recvEnd && sendOffset < BufSize && Drives(interp, tap.requiredRtiCycles, tap.dm)
      modifies this, tap, sendBuf
      ensures Valid() && recvEnd == old(recvEnd) && connected == old(connected) && recvStart == old(recvStart) + 1
      ensures sendOffset' <= sendOffset + 1
      ensures var e := interp(old(tap.Regs()), recvBuf[old(recvStart)]);
        && tap.Regs() == e.tap && sendOffset' == sendOffset + |e.reply| && sendBuf[..sendOffset'] == old(sendBuf[..sendOffset]) + e.reply
        && quit' == (quit || e.quit) && entered == (!inRti && e.tap.state == RunTestIdle) && !inRti'
    {
      var q;
      sendOffset', q := Perform(recvBuf[recvStart], sendOffset);
      quit' := quit || q;
      recvStart := recvStart + 1;
      inRti' := inRti;
      if !inRti' && tap.state == RunTestIdle {
        entered := true;
      } else {
        entered := false;
        inRti' := false;
      }
    }

    /**
     * The write loop after a batch, with each `write` asking for the bytes
     * not yet sent.  `accepted` is how much each successive call takes (a
     * call past its end takes all it is given); the socket gets the reply,
     * each byte once and in order.
     */
    method Flush(sendOffset: nat, accepted: seq<nat>) returns (wire: seq<char>)
      requires Valid() && sendOffset <= BufSize
      ensures wire == sendBuf[..sendOffset]
    {
      var sent: nat := 0;
      var calls := accepted;
      wire := [];
      while sent < sendOffset
        invariant sent <= sendOffset <= sendBuf.Length && wire == sendBuf[..sent]
        decreases |calls|, sendOffset - sent
      {
        var ask: nat := sendOffset - sent;
        var n: nat := if calls == [] || ask <= calls[0] then ask else calls[0];
        wire := wire + sendBuf[sent..sent + n];
        sent := sent + n;
        if calls != [] {
          calls := calls[1..];
        }
      }
    }

    /**
     * A successful `read` of `data` into the receive buffer: the buffered
     * commands are then exactly `data`.
     */
    method Receive(data: seq<char>)
      requires Valid() && |data| <= BufSize
      modifies this, recvBuf
      ensures Valid() && recvStart == 0 && recvEnd == |data| && Pending() == data
      ensures connected == old(connected)
    {
      forall i | 0 <= i < |data| {
        recvBuf[i] := data[i];
      }
      recvStart, recvEnd := 0, |data|;
    }

    /**
     * One round of the outer loop of execute_commands up to its tests: run
     * the buffered commands, if any, as one batch.
     */
    method Round(inRti: bool) returns (inRti': bool, quit: bool, entered: bool, n: nat, out: seq<char>)
      requires Valid() && Drives(interp, tap.requiredRtiCycles, tap.dm)
      modifies this, tap, sendBuf
      ensures Valid() && recvEnd == old(recvEnd) && connected == old(connected)
      ensures RunBatch(old(tap.Regs()), old(Pending()), 0, inRti, false, interp) == Batch(tap.Regs(), n, out, quit, entered, inRti')
      ensures n <= |old(Pending())| && Pending() == old(Pending())[n..]
    {
      if recvStart < recvEnd {
        var start := recvStart;
        var sendOffset;
        sendOffset, inRti', quit, entered := ProcessBatch(inRti, false);
        n, out := recvStart - start, sendBuf[..sendOffset];
      } else {
        inRti', quit, entered, n, out := inRti, false, false, 0, [];
      }
    }

    /**
     * The read at the end of a pass of execute_commands's outer loop, the
     * buffered commands all run: it refills the buffer or ends the call.
     * The ghost `t'` and `p'` are the tap's registers and the buffered
     * commands afterwards.
     */
    method Refill(ghost spec: Session, incoming: seq<ReadResult>, r: nat, total: nat, sent: seq<char>, ghost inRti: bool)
      returns (done: bool, outcome: Outcome, r': nat, ghost p': seq<char>)
      requires Valid() && connected && r <= |incoming| && ReadsFit(incoming[r..])
      requires AwaitsRead(spec, tap.Regs(), incoming[r..], total, sent, inRti, interp)
      modifies this, recvBuf
      ensures Valid() && connected == !(done && outcome == Disconnected) && p' == Pending()
      ensures done ==> spec == Session(tap.Regs(), p', sent, outcome, total)
      ensures !done ==> (r < r' <= |incoming| && ReadsFit(incoming[r'..])
        && spec == Execute(tap.Regs(), p', incoming[r'..], total, sent, false, inRti, interp, true))
    {
      ghost var rest := incoming[r..];
      done, outcome, r', recvStart, p' := true, Yield, r, 0, [];
      if r == |incoming| || incoming[r].WouldBlock? {
        recvEnd := -1;
        return;
      }
      if incoming[r].ReadFailed? {
        recvEnd := -1;
        outcome := Failed;
        return;
      }
      var data := incoming[r].data;
      assert |data| <= BufSize;
      Receive(data);
      p' := data;
      if data == [] {
        connected := false;
        outcome := Disconnected;
        return;
      }
      done, r' := false, r + 1;
      assert rest[1..] == incoming[r'..];
    }

    /**
     * One pass of the outer loop of execute_commands: a batch, the tests
     * that end the call, and one read.  `spec` is what the rest of the call
     * must come to, from the registers `t` and the buffered commands `p`.
     */
    method Pass(ghost spec: Session, ghost t: Tap, ghost p: seq<char>, incoming: seq<ReadResult>, r: nat, total: nat,
                sent: seq<char>, inRti: bool)
      returns (done: bool, outcome: Outcome, r': nat, total': nat, sent': seq<char>, inRti': bool, ghost t': Tap,
               ghost p': seq<char>)
      requires Valid() && connected && Drives(interp, tap.requiredRtiCycles, tap.dm)
      requires r <= |incoming| && ReadsFit(incoming[r..]) && t == tap.Regs() && p == Pending()
      requires spec == Execute(t, p, incoming[r..], total, sent, false, inRti, interp, true)
      modifies this, tap, recvBuf, sendBuf
      ensures Valid() && connected == !(done && outcome == Disconnected) && t' == tap.Regs() && p' == Pending()
      ensures done ==> spec == Session(t', p', sent', outcome, total')
      ensures !done ==> (r < r' <= |incoming| && ReadsFit(incoming[r'..])
        && spec == Execute(t', p', incoming[r'..], total', sent', false, inRti', interp, true))
    {
      var quit, entered, n, out;
      inRti', quit, entered, n, out := Round(inRti);
      total', sent', t' := total + n, sent + out, tap.Regs();
      assert out == sent'[|sent|..];
      ExecuteStops(spec, t, p, incoming[r..], total, sent, inRti, interp, t', total', sent', quit, entered, inRti');
      if quit {
        connected := false;
        recvStart, recvEnd := 0, 0;
        done, outcome, r', p' := true, Disconnected, r, [];
      } else if total' > BufSize || entered {
        done, outcome, r', p' := true, Yield, r, p[n..];
      } else {
        ExecuteAwaits(spec, t, p, incoming[r..], total, sent, inRti, interp, t', total', sent', inRti');
        done, outcome, r', p' := Refill(spec, incoming, r, total', sent', inRti');
      }
    }

    /**
     * execute_commands, with the 'Q' test placed where it closes the
     * connection.  The reads it makes are `incoming`, in order (running out
     * of them is EAGAIN); the bytes it writes are `sent`, and `processed`
     * counts the command bytes it executed.
     */
    method ExecuteCommands(incoming: seq<ReadResult>) returns (sent: seq<char>, outcome: Outcome, ghost processed: nat)
      requires Valid() && connected && ReadsFit(incoming) && Drives(interp, tap.requiredRtiCycles, tap.dm)
      modifies this, tap, recvBuf, sendBuf
      ensures Valid() && connected == (outcome != Disconnected)
      ensures Execute(old(tap.Regs()), old(Pending()), incoming, 0, [], false, old(tap.state) == RunTestIdle, interp, true)
        == Session(tap.Regs(), Pending(), sent, outcome, processed)
    {
      ghost var t, p := tap.Regs(), Pending();
      ghost var spec := Execute(t, p, incoming, 0, [], false, tap.state == RunTestIdle, interp, true);
      var total: nat := 0;
      var inRti := tap.state == RunTestIdle;
      var r: nat := 0;
      sent := [];
      while true
        invariant Valid() && connected && r <= |incoming| && ReadsFit(incoming[r..]) && t == tap.Regs() && p == Pending()
        invariant spec == Execute(t, p, incoming[r..], total, sent, false, inRti, interp, true)
        decreases |incoming| - r
      {
        var done;
        done, outcome, r, total, sent, inRti, t, p := Pass(spec, t, p, incoming, r, total, sent, inRti);
        if done {
          processed := total;
          return;
        }
      }
    }
  }
}
