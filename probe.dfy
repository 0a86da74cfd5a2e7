/**
 * The probe loop of gtping.c (`mainloop`): send an Echo Request whenever the
 * interval has elapsed, stop before sending once `count` requests have gone
 * out, wait for readiness no longer than until the next send, and count every
 * reply `recvEchoReply` accepts. Each clock reading, the outcome of `send`
 * and of `poll`, and the termination flag are inputs of a step.
 */
module ProbeLoop {
  import opened GtpWire
  import opened RttStats
  import opened EchoTracker

  datatype Option<T> = None | Some(value: T)

  /** The options `mainloop` reads: `-w` (here in microseconds) and `-c` (0 means no limit). */
  datatype Config = Config(interval: int, count: Uint32)

  /** The locals `sent`, `recvd` and `lastping` of `mainloop`. */
  datatype LoopState = LoopState(sent: Uint32, recvd: Uint32, lastping: int)

  const Start: LoopState := LoopState(0, 0, 0)

  /** What `poll` reported: readable (and what `recv` then gave), timeout, -1 with `errno`, or anything else. */
  datatype PollEvent =
    | Readable(recvClock: int, result: RecvResult)
    | TimedOut
    | PollError(errno: Errno)
    | PollOther

  /**
   * The environment of one iteration: the termination flag set by SIGINT,
   * the clock at the top of the loop, inside `sendEcho` and before `poll`,
   * whether `send` transmitted the whole record, and the `poll` event.
   */
  datatype StepInput = StepInput(
    timeToDie: bool,
    now: int,
    sendClock: int,
    sendOk: bool,
    waitClock: int,
    poll: PollEvent)

  /** How an iteration ends: go round again, leave the loop, `return` from `mainloop`, or `exit`. */
  datatype Verdict = Continue | Break | Return(code: int) | Exit(code: int)

  predicate SendDue(now: int, lastping: int, interval: int)
  {
    now > lastping + interval
  }

  predicate CountReached(cfg: Config, curSeq: Uint32)
  {
    cfg.count != 0 && curSeq == cfg.count
  }

  /** The iteration leaves the loop before sending anything. */
  predicate Stops(cfg: Config, st: LoopState, curSeq: Uint32, input: StepInput)
  {
    input.timeToDie || (SendDue(input.now, st.lastping, cfg.interval) && CountReached(cfg, curSeq))
  }

  /** The iteration calls `sendEcho`. */
  predicate AttemptsSend(cfg: Config, st: LoopState, curSeq: Uint32, input: StepInput)
  {
    !input.timeToDie && SendDue(input.now, st.lastping, cfg.interval) && !CountReached(cfg, curSeq)
  }

  /**
   * The `poll` timeout in milliseconds: the time left until the next send,
   * never negative, truncated to whole milliseconds.
   */
  function PollTimeoutMs(lastping: int, interval: int, clock: int): (ms: int)
    ensures ms >= 0
    ensures lastping + interval <= clock ==> ms == 0
    ensures lastping + interval > clock ==> ms * 1000 <= lastping + interval - clock < (ms + 1) * 1000
  {
    var wait := lastping + interval - clock;
    if wait < 0 then 0 else wait / 1000
  }

  /** `return recvd == 0`: success exactly when some reply was counted. */
  function ExitStatus(recvd: Uint32): (code: int)
    ensures code == 0 <==> recvd != 0
    ensures code == 1 <==> recvd == 0
  {
    if recvd == 0 then 1 else 0
  }

  /**
   * What the process ends with after an iteration with this verdict: nothing
   * yet for Continue, `recvd == 0` after leaving the loop, the code otherwise.
   */
  function Termination(verdict: Verdict, recvd: Uint32): (status: Option<int>)
    ensures status.None? <==> verdict == Continue
    ensures verdict == Break ==> status == Some(ExitStatus(recvd))
    ensures verdict.Return? || verdict.Exit? ==> status == Some(verdict.code)
  {
    match verdict
    case Continue => None
    case Break => Some(ExitStatus(recvd))
    case Return(code) => Some(code)
    case Exit(code) => Some(code)
  }

  /**
   * The counter arithmetic of one more send: with `n` requests sent so far and
   * the count limit not reached, the next request is number `n` (mod 2^32)
   * and stays within the limit.
   */
  lemma NextRequest(n: nat, curSeq: Uint32, cfg: Config)
    requires curSeq == n % 0x1_0000_0000
    requires cfg.count != 0 ==> n <= cfg.count
    requires !CountReached(cfg, curSeq)
    ensures Inc32(curSeq) == (n + 1) % 0x1_0000_0000
    ensures cfg.count != 0 ==> n + 1 <= cfg.count
  {
    Inc32OfCount(n);
  }

  /** One pass of `for(;!time_to_die;)` in `mainloop`. */
  method LoopStep(p: Prober, cfg: Config, st: LoopState, input: StepInput)
      returns (next: LoopState, verdict: Verdict, packet: Option<seq<Byte>>, waitMs: Option<int>, reply: Option<ReplyOutcome>)
    requires p.Valid()
    modifies p, p.sendTimes
    ensures p.Valid() && p.sendTimes == old(p.sendTimes)
    // leaving the loop at the top, or before a send once `count` is reached
    ensures verdict == Break <==> Stops(cfg, st, old(p.curSeq), input)
    ensures verdict == Break ==> next == st && packet == None && waitMs == None && reply == None
    ensures verdict == Break ==> p.lags == old(p.lags) && p.Current() == old(p.Current())
    // sending: `curSeq++` and the ring-buffer slot, even when `send` then fails
    ensures AttemptsSend(cfg, st, old(p.curSeq), input) ==>
              p.curSeq == Inc32(old(p.curSeq)) &&
              p.sendTimes[..] == old(p.sendTimes[..])[old(p.curSeq) % SendTimesSize := input.sendClock]
    ensures !AttemptsSend(cfg, st, old(p.curSeq), input) ==>
              p.curSeq == old(p.curSeq) && p.sendTimes[..] == old(p.sendTimes[..])
    ensures packet.Some? <==> AttemptsSend(cfg, st, old(p.curSeq), input) && input.sendOk
    ensures packet.Some? ==>
              packet.value == EchoRequest(old(p.curSeq)) && next.sent == Inc32(st.sent) && next.lastping == input.now
    ensures packet.None? ==> next.sent == st.sent && next.lastping == st.lastping
    ensures AttemptsSend(cfg, st, old(p.curSeq), input) && !input.sendOk ==>
              verdict == Return(1) && next == st && waitMs == None && reply == None && p.lags == old(p.lags)
    // waiting and receiving
    ensures waitMs.Some? <==> verdict != Break && !(AttemptsSend(cfg, st, old(p.curSeq), input) && !input.sendOk)
    ensures waitMs.Some? ==> waitMs.value == PollTimeoutMs(next.lastping, cfg.interval, input.waitClock)
    ensures reply.Some? <==> waitMs.Some? && input.poll.Readable?
    ensures reply.Some? ==> reply.value == Classify(p.curSeq, p.sendTimes[..], input.poll.recvClock, input.poll.result)
    ensures next.recvd == if reply.Some? && Status(reply.value) == 0 then Inc32(st.recvd) else st.recvd
    ensures p.lags == if reply.Some? && reply.value.Measured? then old(p.lags) + [reply.value.lag] else old(p.lags)
    ensures p.Current() == if reply.Some? && reply.value.Measured? then AddSample(old(p.Current()), reply.value.lag) else old(p.Current())
    ensures reply.Some? ==> verdict == if Status(reply.value) < 0 then Return(1) else Continue
    ensures waitMs.Some? && input.poll.TimedOut? ==> verdict == Continue
    ensures waitMs.Some? && input.poll.PollError? ==>
              verdict == if input.poll.errno == EINTR || input.poll.errno == EAGAIN then Continue else Exit(2)
    ensures waitMs.Some? && input.poll.PollOther? ==> verdict == Exit(2)
    ensures verdict.Return? ==> verdict.code == 1
    ensures verdict.Exit? ==> verdict.code == 2
  {
    next, packet, waitMs, reply := st, None, None, None;
    if input.timeToDie {
      verdict := Break;
      return;
    }
    if input.now > st.lastping + cfg.interval {
      if cfg.count != 0 && p.curSeq == cfg.count {
        verdict := Break;
        return;
      }
      var sequence := p.NextSeq();
      var request := p.SendEcho(sequence, input.sendClock);
      if !input.sendOk {
        verdict := Return(1);
        return;
      }
      packet := Some(request);
      next := next.(sent := Inc32(next.sent), lastping := input.now);
    }
    waitMs := Some(PollTimeoutMs(next.lastping, cfg.interval, input.waitClock));
    match input.poll {
      case Readable(clock, result) =>
        var o := p.RecvEchoReply(result, clock);
        reply := Some(o);
        var n := Status(o);
        if n == 0 {
          next := next.(recvd := Inc32(next.recvd));
          verdict := Continue;
        } else if n > 0 {
          verdict := Continue;
        } else {
          verdict := Return(1);
        }
      case TimedOut =>
        verdict := Continue;
      case PollError(e) =>
        if e == EINTR || e == EAGAIN {
          verdict := Continue;
        } else {
          verdict := Exit(2);
        }
      case PollOther =>
        verdict := Exit(2);
    }
  }

  /**
   * `mainloop` driven by a script of step inputs, starting from the program's
   * initial state. `status` is what the process ends with (`mainloop`'s
   * return value or the `exit` code), or None when the script runs out while
   * the loop is still going. `packets` are the requests put on the wire;
   * `sendClocks` are the send times of every request `sendEcho` numbered,
   * the one whose `send` failed included.
   */
  method MainLoop(p: Prober, cfg: Config, inputs: seq<StepInput>)
      returns (status: Option<int>, final: LoopState, packets: seq<seq<Byte>>, ghost sendClocks: seq<int>)
    requires p.Valid() && p.curSeq == 0
    modifies p, p.sendTimes
    ensures p.Valid()
    ensures p.curSeq == |sendClocks| % 0x1_0000_0000
    ensures p.sendTimes[..] == AfterSends(old(p.sendTimes[..]), 0, sendClocks)
    ensures |packets| <= |sendClocks| <= |inputs|
    ensures forall i :: 0 <= i < |packets| ==> packets[i] == EchoRequest(i % 0x1_0000_0000)
    ensures cfg.count != 0 ==> |packets| <= cfg.count
    ensures |packets| <= |inputs|
    ensures final.sent == |packets| % 0x1_0000_0000
    ensures status.None? ==> p.curSeq == final.sent
    ensures status.Some? ==> status.value in {0, 1, 2}
    ensures status == Some(0) ==> final.recvd != 0
  {
    status, final, packets, sendClocks := None, Start, [], [];
    var i := 0;
    while i < |inputs| && status.None?
      invariant 0 <= i <= |inputs|
      invariant p.Valid() && p.sendTimes == old(p.sendTimes)
      invariant p.curSeq == |sendClocks| % 0x1_0000_0000
      invariant p.sendTimes[..] == AfterSends(old(p.sendTimes[..]), 0, sendClocks)
      invariant |packets| <= |sendClocks| <= i
      invariant final.sent == |packets| % 0x1_0000_0000
      invariant status.None? ==> p.curSeq == final.sent
      invariant forall j :: 0 <= j < |packets| ==> packets[j] == EchoRequest(j % 0x1_0000_0000)
      invariant cfg.count != 0 ==> |packets| <= cfg.count
      invariant |packets| <= i
      invariant status.Some? ==> status.value in {0, 1, 2}
      invariant status == Some(0) ==> final.recvd != 0
    {
      ghost var before := p.curSeq;
      ghost var attempted := AttemptsSend(cfg, final, before, inputs[i]);
      var next, verdict, packet, _, _ := LoopStep(p, cfg, final, inputs[i]);
      if attempted {
        Inc32OfCount(|sendClocks|);
        AfterSendsSnoc(old(p.sendTimes[..]), 0, sendClocks, inputs[i].sendClock);
        sendClocks := sendClocks + [inputs[i].sendClock];
      }
      if packet.Some? {
        assert AttemptsSend(cfg, final, before, inputs[i]);
        NextRequest(|packets|, before, cfg);
        packets := packets + [packet.value];
      }
      final := next;
      status := Termination(verdict, next.recvd);
      i := i + 1;
    }
  }
}
