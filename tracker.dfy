/**
 * The send-time ring buffer and the reply classification of gtping.c: every
 * request stores its send time at slot `seq % 100` of `sendTimes`, and a reply
 * is timed against that slot unless the unsigned 32-bit distance from the
 * current sequence counter says it is too old ("Inf").
 */
module EchoTracker {
  import opened GtpWire
  import opened RttStats

  /** SENDTIMES_SIZE: the number of slots of the send-time ring buffer. */
  const SendTimesSize: nat := 100

  /** A positive `errno` value other than the three the core tests for by name. */
  type OtherErrnoCode = x: int | x > 0 && x != 111 && x != 4 && x != 11 witness 1

  /** The `errno` values the core distinguishes, with their Linux numbers. */
  datatype Errno = ECONNREFUSED | EINTR | EAGAIN | OtherErrno(code: OtherErrnoCode)

  function ErrnoValue(e: Errno): (v: int)
    ensures v > 0
    ensures v == 111 <==> e == ECONNREFUSED
    ensures v == 4 <==> e == EINTR
    ensures v == 11 <==> e == EAGAIN
  {
    match e
    case ECONNREFUSED => 111
    case EINTR => 4
    case EAGAIN => 11
    case OtherErrno(code) => code
  }

  /** What `recv` hands back: a datagram, or -1 with `errno` set. */
  datatype RecvResult = Datagram(bytes: seq<Byte>) | RecvError(errno: Errno)

  /** What `recvEchoReply` made of one readable event. */
  datatype ReplyOutcome =
    | Measured(sequence: Uint16, lag: int)   // timed reply: "time=%.2f ms"
    | Stale(sequence: Uint16)                // reply outside the buffer's span: "time=Inf"
    | NotEchoReply(msg: Byte)                // type byte other than 0x02
    | Unreachable                            // ECONNREFUSED or EINTR
    | RecvFailed(errno: Errno)               // any other receive error

  /** Receive errors after which `recvEchoReply` returns 1 and the loop carries on. */
  predicate IsSoftRecvError(e: Errno)
  {
    e == ECONNREFUSED || e == EINTR
  }

  /** The staleness test `curSeq - seq >= SENDTIMES_SIZE` in unsigned 32-bit arithmetic. */
  predicate IsStale(curSeq: Uint32, sequence: Uint16)
  {
    (curSeq - sequence) % 0x1_0000_0000 >= SendTimesSize
  }

  /**
   * Because the subtraction wraps, a reply is stale exactly when its sequence
   * number lies ahead of the counter or at least 100 behind it.
   */
  lemma StaleMeansBehindOrAhead(curSeq: Uint32, sequence: Uint16)
    ensures IsStale(curSeq, sequence) <==> sequence > curSeq || curSeq - sequence >= SendTimesSize
  {
    if sequence > curSeq {
      assert (curSeq - sequence) % 0x1_0000_0000 == curSeq - sequence + 0x1_0000_0000;
    } else {
      assert (curSeq - sequence) % 0x1_0000_0000 == curSeq - sequence;
    }
  }

  /** The type byte of a received datagram after zero-filling. */
  function ReplyType(datagram: seq<Byte>): (t: Byte)
    ensures t == if |datagram| >= 2 then datagram[1] else 0
  {
    Decode(ReceiveBuffer(datagram)).msg
  }

  /** The sequence field of a received datagram after zero-filling. */
  function ReplySeq(datagram: seq<Byte>): (s: Uint16)
    ensures s == (if |datagram| > 8 then datagram[8] as int else 0) * 0x100
               + (if |datagram| > 9 then datagram[9] as int else 0)
  {
    Decode(ReceiveBuffer(datagram)).sequence
  }

  /**
   * The outcome `recvEchoReply` reaches for a receive result at time `clock`
   * while the counter is `curSeq` and the ring buffer holds `sendTimes`.
   */
  function Classify(curSeq: Uint32, sendTimes: seq<int>, clock: int, r: RecvResult): (o: ReplyOutcome)
    requires |sendTimes| == SendTimesSize
    ensures o.Unreachable? <==> r.RecvError? && IsSoftRecvError(r.errno)
    ensures o.RecvFailed? <==> r.RecvError? && !IsSoftRecvError(r.errno)
    ensures o.RecvFailed? ==> o.errno == r.errno
    ensures o.NotEchoReply? <==> r.Datagram? && ReplyType(r.bytes) != EchoReplyType
    ensures o.NotEchoReply? ==> o.msg == ReplyType(r.bytes)
    ensures o.Stale? <==> r.Datagram? && ReplyType(r.bytes) == EchoReplyType && IsStale(curSeq, ReplySeq(r.bytes))
    ensures o.Stale? || o.Measured? ==> o.sequence == ReplySeq(r.bytes)
    ensures o.Measured? ==> o.lag == clock - sendTimes[o.sequence % SendTimesSize]
  {
    match r
    case RecvError(e) => if IsSoftRecvError(e) then Unreachable else RecvFailed(e)
    case Datagram(bytes) =>
      var gtp := Decode(ReceiveBuffer(bytes));
      if gtp.msg != EchoReplyType then NotEchoReply(gtp.msg)
      else if IsStale(curSeq, gtp.sequence) then Stale(gtp.sequence)
      else Measured(gtp.sequence, clock - sendTimes[gtp.sequence % SendTimesSize])
  }

  /**
   * The return value of `recvEchoReply`: 0 for a reply of any kind, 1 for a
   * soft receive error, minus `errno` for any other receive error.
   */
  function Status(o: ReplyOutcome): (code: int)
    ensures code == 0 <==> o.Measured? || o.Stale? || o.NotEchoReply?
    ensures code == 1 <==> o.Unreachable?
    ensures code < 0 <==> o.RecvFailed?
  {
    match o
    case Unreachable => 1
    case RecvFailed(e) => -ErrnoValue(e)
    case _ => 0
  }

  /** The ring buffer after requests `first`, `first + 1`, ... were sent at `clocks`. */
  function AfterSends(sendTimes: seq<int>, first: Uint32, clocks: seq<int>): (r: seq<int>)
    requires |sendTimes| == SendTimesSize
    ensures |r| == SendTimesSize
    decreases |clocks|
  {
    if clocks == [] then sendTimes
    else AfterSends(sendTimes[first % SendTimesSize := clocks[0]], Inc32(first), clocks[1..])
  }

  /** Numbering n further requests from the one after `first` lands where n + 1 from `first` does. */
  lemma NumberAfterNext(first: Uint32, n: nat)
    ensures (Inc32(first) + n) % 0x1_0000_0000 == (first + 1 + n) % 0x1_0000_0000
  {
    if first == 0xFFFF_FFFF {
      assert first + 1 + n == 0x1_0000_0000 + n;
    }
  }

  /** One more send writes its clock into the slot of the request number it got. */
  lemma {:induction false} AfterSendsSnoc(sendTimes: seq<int>, first: Uint32, clocks: seq<int>, c: int)
    requires |sendTimes| == SendTimesSize
    ensures AfterSends(sendTimes, first, clocks + [c])
         == AfterSends(sendTimes, first, clocks)[((first + |clocks|) % 0x1_0000_0000) % SendTimesSize := c]
    decreases |clocks|
  {
    if clocks == [] {
      assert ([] + [c])[1..] == [];
    } else {
      var written := sendTimes[first % SendTimesSize := clocks[0]];
      var rest := clocks[1..];
      assert (clocks + [c])[1..] == rest + [c];
      assert AfterSends(sendTimes, first, clocks + [c]) == AfterSends(written, Inc32(first), rest + [c]);
      assert AfterSends(sendTimes, first, clocks) == AfterSends(written, Inc32(first), rest);
      AfterSendsSnoc(written, Inc32(first), rest, c);
      NumberAfterNext(first, |rest|);
    }
  }

  /** Sends split at any point: the later ones start from the ring the earlier ones left. */
  lemma {:induction false} AfterSendsAppend(sendTimes: seq<int>, first: Uint32, earlier: seq<int>, later: seq<int>)
    requires |sendTimes| == SendTimesSize
    ensures AfterSends(sendTimes, first, earlier + later)
         == AfterSends(AfterSends(sendTimes, first, earlier), (first + |earlier|) % 0x1_0000_0000, later)
    decreases |earlier|
  {
    if earlier == [] {
      assert earlier + later == later;
    } else {
      var written := sendTimes[first % SendTimesSize := earlier[0]];
      var rest := earlier[1..];
      assert (earlier + later)[0] == earlier[0];
      assert (earlier + later)[1..] == rest + later;
      assert AfterSends(sendTimes, first, earlier + later) == AfterSends(written, Inc32(first), rest + later);
      assert AfterSends(sendTimes, first, earlier) == AfterSends(written, Inc32(first), rest);
      AfterSendsAppend(written, Inc32(first), rest, later);
      NumberAfterNext(first, |rest|);
    }
  }

  /**
   * Sends that stop before the next request whose slot is `k` leave slot `k`
   * alone: `(k - first) % 100` is how many requests after `first` reach it.
   */
  lemma {:induction false} AfterSendsKeeps(sendTimes: seq<int>, first: Uint32, clocks: seq<int>, k: nat)
    requires |sendTimes| == SendTimesSize && k < SendTimesSize
    requires first + |clocks| <= 0x1_0000_0000
    requires |clocks| <= (k - first) % SendTimesSize
    ensures AfterSends(sendTimes, first, clocks)[k] == sendTimes[k]
    decreases |clocks|
  {
    if clocks != [] {
      assert first % SendTimesSize != k;
      var rest := clocks[1..];
      if rest != [] {
        assert Inc32(first) == first + 1;
        assert (k - (first + 1)) % SendTimesSize == (k - first) % SendTimesSize - 1;
      }
      AfterSendsKeeps(sendTimes[first % SendTimesSize := clocks[0]], Inc32(first), rest, k);
    }
  }

  /**
   * After request `first` and at most 99 later ones (no 32-bit wrap), the slot
   * of `first` still holds the time `first` was sent.
   */
  lemma RingKeepsRecentSends(sendTimes: seq<int>, first: Uint32, clocks: seq<int>)
    requires |sendTimes| == SendTimesSize
    requires 1 <= |clocks| <= SendTimesSize
    requires first + |clocks| <= 0x1_0000_0000
    ensures AfterSends(sendTimes, first, clocks)[first % SendTimesSize] == clocks[0]
  {
    var k := first % SendTimesSize;
    if |clocks| > 1 {
      assert Inc32(first) == first + 1;
      assert (k - (first + 1)) % SendTimesSize == SendTimesSize - 1;
    }
    AfterSendsKeeps(sendTimes[k := clocks[0]], Inc32(first), clocks[1..], k);
  }

  /**
   * A reply to any of the last 99 requests is timed against its own send
   * time, as long as the counter has not left 16 bits.
   */
  lemma ReplyWithinWindowMeasured(sendTimes: seq<int>, first: Uint32, clocks: seq<int>, clock: int, reply: GtpEcho)
    requires |sendTimes| == SendTimesSize
    requires 1 <= |clocks| < SendTimesSize
    requires first + |clocks| < 0x1_0000
    requires reply.msg == EchoReplyType && reply.sequence == first
    ensures Classify(first + |clocks|, AfterSends(sendTimes, first, clocks), clock, Datagram(Encode(reply)))
         == Measured(first, clock - clocks[0])
  {
    RingKeepsRecentSends(sendTimes, first, clocks);
    ReceiveEncoded(reply);
  }

  /**
   * The ring after requests 0, 1, ..., n - 1 were sent at `clocks`: the slot
   * of each of the last 100 requests holds that request's send time.
   */
  lemma RunKeepsRecentSends(sendTimes: seq<int>, clocks: seq<int>, k: nat)
    requires |sendTimes| == SendTimesSize
    requires |clocks| <= 0x1_0000_0000
    requires |clocks| - SendTimesSize <= k < |clocks|
    ensures AfterSends(sendTimes, 0, clocks)[k % SendTimesSize] == clocks[k]
  {
    var earlier, later := clocks[..k], clocks[k..];
    assert clocks == earlier + later;
    assert (0 + |earlier|) % 0x1_0000_0000 == k;
    AfterSendsAppend(sendTimes, 0, earlier, later);
    var ring := AfterSends(sendTimes, 0, earlier);
    assert AfterSends(sendTimes, 0, clocks) == AfterSends(ring, k, later);
    RingKeepsRecentSends(ring, k, later);
  }

  /**
   * While n stays below 2^16, a reply to request k, one of the last 99 of
   * requests 0, 1, ..., n - 1, is timed against `clocks[k]`.
   */
  lemma RunReplyMeasured(sendTimes: seq<int>, clocks: seq<int>, k: nat, clock: int, reply: GtpEcho)
    requires |sendTimes| == SendTimesSize
    requires |clocks| < 0x1_0000
    requires |clocks| - SendTimesSize < k < |clocks|
    requires reply.msg == EchoReplyType && reply.sequence == k
    ensures Classify(|clocks|, AfterSends(sendTimes, 0, clocks), clock, Datagram(Encode(reply)))
         == Measured(k, clock - clocks[k])
  {
    RunKeepsRecentSends(sendTimes, clocks, k);
    ReceiveEncoded(reply);
  }

  /**
   * Once the counter has passed 2^16, the reply to the request just sent is
   * stale: its 16-bit sequence field is at least 2^16 behind the counter.
   */
  lemma ReplyAfterSeqWrapIsStale(sendTimes: seq<int>, sent: Uint32, clock: int, reply: GtpEcho)
    requires |sendTimes| == SendTimesSize
    requires 0x1_0000 <= sent
    requires reply.msg == EchoReplyType && reply.sequence == sent % 0x1_0000
    ensures Classify(Inc32(sent), sendTimes, clock, Datagram(Encode(reply))) == Stale(sent % 0x1_0000)
  {
    ReceiveEncoded(reply);
    StaleMeansBehindOrAhead(Inc32(sent), sent % 0x1_0000);
  }

  /** From counter value 65636 on, every sequence field a reply can carry is stale. */
  lemma EveryReplyStaleBeyond16Bits(curSeq: Uint32, sequence: Uint16)
    requires curSeq >= 0x1_0000 + SendTimesSize
    ensures IsStale(curSeq, sequence)
  {
    StaleMeansBehindOrAhead(curSeq, sequence);
  }

  /**
   * The test accepts distance 0: a reply carrying the number the next request
   * will get (never sent yet) is timed against that slot's older contents.
   */
  lemma ReplyForUnsentSeqIsMeasured(sendTimes: seq<int>, curSeq: Uint16, clock: int, reply: GtpEcho)
    requires |sendTimes| == SendTimesSize
    requires reply.msg == EchoReplyType && reply.sequence == curSeq
    ensures Classify(curSeq, sendTimes, clock, Datagram(Encode(reply)))
         == Measured(curSeq, clock - sendTimes[curSeq % SendTimesSize])
  {
    ReceiveEncoded(reply);
  }

  /** A datagram too short to reach the type byte reads as type 0 and is rejected. */
  lemma ShortDatagramIsNotEchoReply(sendTimes: seq<int>, curSeq: Uint32, clock: int, bytes: seq<Byte>)
    requires |sendTimes| == SendTimesSize && |bytes| < 2
    ensures Classify(curSeq, sendTimes, clock, Datagram(bytes)) == NotEchoReply(0)
  {
  }

  /**
   * The state `sendEcho` and `recvEchoReply` share: the send-time ring buffer,
   * the sequence counter and the five running totals.
   */
  class Prober {
    var sendTimes: array<int>
    var curSeq: Uint32
    var totalTimeCount: nat
    var totalTime: int
    var totalTimeSquared: int
    var totalMin: int
    var totalMax: int
    /** The lags measured so far, in arrival order. */
    ghost var lags: seq<int>

    function Current(): (t: Totals)
      reads this
    {
      Totals(totalTimeCount, totalTime, totalTimeSquared, totalMin, totalMax)
    }

    ghost predicate Valid()
      reads this
    {
      sendTimes.Length == SendTimesSize && Current() == Accumulate(lags)
    }

    /** The program's static state before `mainloop` starts. */
    constructor ()
      ensures Valid() && fresh(sendTimes)
      ensures curSeq == 0 && lags == [] && Current() == Initial
      ensures forall i :: 0 <= i < SendTimesSize ==> sendTimes[i] == 0
    {
      sendTimes := new int[SendTimesSize](_ => 0);
      curSeq := 0;
      totalTimeCount, totalTime, totalTimeSquared := 0, 0, 0;
      totalMin, totalMax := NoSample, NoSample;
      lags := [];
    }

    /** `curSeq++`: hands out the current number and advances the counter. */
    method NextSeq() returns (sequence: Uint32)
      requires Valid()
      modifies this`curSeq
      ensures Valid()
      ensures sequence == old(curSeq) && curSeq == Inc32(sequence)
    {
      sequence := curSeq;
      curSeq := Inc32(curSeq);
    }

    /**
     * `sendEcho`: builds the request for `sequence` and stores the send time
     * in slot `sequence % 100`, leaving the other 99 slots as they were.
     */
    method SendEcho(sequence: Uint32, clock: int) returns (packet: seq<Byte>)
      requires Valid()
      modifies sendTimes
      ensures Valid()
      ensures packet == EchoRequest(sequence)
      ensures sendTimes[..] == old(sendTimes[..])[sequence % SendTimesSize := clock]
      ensures forall i :: 0 <= i < SendTimesSize && i != sequence % SendTimesSize ==> sendTimes[i] == old(sendTimes[i])
    {
      packet := Encode(GtpEcho(EchoFlags, EchoRequestType, EchoPayloadLength, 0, sequence % 0x1_0000, 0, 0));
      sendTimes[sequence % SendTimesSize] := clock;
    }

    /**
     * The statistics update of `recvEchoReply` for a timed reply: all five
     * totals take in `lag`, the sentinel -1 giving way to the first sample.
     */
    method AddLag(lag: int)
      requires Valid()
      modifies this
      ensures Valid()
      ensures sendTimes == old(sendTimes) && curSeq == old(curSeq)
      ensures Current() == AddSample(old(Current()), lag)
      ensures lags == old(lags) + [lag]
    {
      ghost var target := AddSample(Current(), lag);
      AccumulateSnoc(lags, lag);
      lags := lags + [lag];
      assert Accumulate(lags) == target;
      totalTime := totalTime + lag;
      totalTimeSquared := totalTimeSquared + lag * lag;
      totalTimeCount := totalTimeCount + 1;
      if 0 > totalMin || lag < totalMin {
        totalMin := lag;
      }
      if 0 > totalMax || lag > totalMax {
        totalMax := lag;
      }
      assert Current() == target;
    }

    /**
     * `recvEchoReply`: classifies the receive result and, for a timed reply
     * only, folds its lag into all five totals.
     */
    method RecvEchoReply(r: RecvResult, clock: int) returns (o: ReplyOutcome)
      requires Valid()
      modifies this
      ensures Valid()
      ensures sendTimes == old(sendTimes) && curSeq == old(curSeq)
      ensures o == Classify(curSeq, sendTimes[..], clock, r)
      ensures Current() == if o.Measured? then AddSample(old(Current()), o.lag) else old(Current())
      ensures lags == if o.Measured? then old(lags) + [o.lag] else old(lags)
    {
      match r {
        case RecvError(e) =>
          if e == ECONNREFUSED || e == EINTR {
            return Unreachable;
          }
          return RecvFailed(e);
        case Datagram(bytes) =>
          var gtp := Decode(ReceiveBuffer(bytes));
          if gtp.msg != EchoReplyType {
            return NotEchoReply(gtp.msg);
          }
          if (curSeq - gtp.sequence) % 0x1_0000_0000 >= SendTimesSize {
            return Stale(gtp.sequence);
          }
          var lag := clock - sendTimes[gtp.sequence % SendTimesSize];
          AddLag(lag);
          o := Measured(gtp.sequence, lag);
      }
    }
  }
}
