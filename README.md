# gtping probe engine in Dafny

A model of the probe engine of `gtping`, a tool that measures round trips to a
GTP (GPRS Tunnelling Protocol, version 1) node by sending it Echo Requests and
timing the Echo Responses (3GPP TS 29.060, sections 7.2.1 and 7.2.2). The
engine lives in `gtping.c` and consists of:

- the 12-byte packed `struct GtpEcho` record and its big-endian fields;
- `sendEcho`, which builds a request and stores its send time in slot
  `seq % 100` of the ring buffer `sendTimes`;
- `recvEchoReply`, which reads one datagram into a zero-filled record. It
  reports a type other than 2 and goes no further with it. It calls a reply
  "Inf" when the unsigned 32-bit distance `curSeq - seq` is 100 or more. Otherwise it times the reply against
  its slot and folds the lag into five running totals: count, sum, sum of
  squares, minimum and maximum, the last two starting at the sentinel -1;
- `mainloop`, which sends whenever the interval has elapsed and stops before a
  send once `count` requests have gone out. It waits in `poll` no longer than
  until the next send, counts every datagram `recvEchoReply` reads (wrong-type
  and stale ones included) and returns `recvd == 0`.

Files:

- `wire.dfy`, module `GtpWire`: the record, its encoding and decoding with both
  round trips, the request bytes, the receive buffer, and 32-bit counter
  increments.
- `stats.dfy`, module `RttStats`: the five totals as a value, one sample step
  `AddSample`, the fold `Accumulate` over all lags, and its bounds.
- `tracker.dfy`, module `EchoTracker`: the pure classification `Classify` of a
  receive result, and the ring-buffer lemmas over `AfterSends`. It also holds
  class `Prober`, which is the program's static state. Its `sendTimes` is an
  array of 100 slots, and its methods update the counter, the slot and the
  totals in place. A ghost field records the lags measured so far, and
  `Valid()` ties the totals to `Accumulate` of those lags.
- `probe.dfy`, module `ProbeLoop`: one pass of the loop (`LoopStep`), proved
  against the step's rules, and `mainloop` driven by a script of per-iteration
  inputs (`MainLoop`).

Times are integer microseconds. Every `gettimeofday` call becomes an input of
its own: the loop's clock, the clock inside `sendEcho`, the clock before
`poll` and the clock inside `recvEchoReply`. Likewise the outcome of `send`,
the event `poll` reports with what `recv` returned, and the SIGINT flag
`time_to_die` are inputs. `curSeq`, `sent` and `recvd` are 32-bit unsigned
values whose increments wrap.

The staleness test is modelled exactly as written: an unsigned 32-bit
subtraction of the 16-bit wire sequence number from the 32-bit counter. Two
consequences are proved:

- once the counter passes 65636, every reply is stale
  (`EchoTracker.EveryReplyStaleBeyond16Bits`), and already from 65536 on the
  reply to the request just sent is stale
  (`EchoTracker.ReplyAfterSeqWrapIsStale`);
- a reply carrying the number the next request will get is accepted as
  distance 0 and timed against that slot's older contents
  (`EchoTracker.ReplyForUnsentSeqIsMeasured`).

## Model

| member | source | states |
|---|---|---|
| GtpWire.Inc32 | gtping.c:375-378 | `curSeq++`, `sent++` and `recvd++` on `unsigned`: one more below 2^32 - 1, 0 after 2^32 - 1 |
| GtpWire.Inc32OfCount | gtping.c:375-378 | a 32-bit counter that has counted n events holds n mod 2^32, and one more increment gives (n + 1) mod 2^32 |
| GtpWire.ReadBigEndian16 | gtping.c:296 | `htons` on a received field: the high byte is the value div 256 and the low byte the value mod 256 |
| GtpWire.BigEndian16 | gtping.c:239-241 | the two bytes written for a 16-bit field read back as the same value |
| GtpWire.ReadBigEndian32 | gtping.c:55 | a 4-byte field reads as its high 16-bit half times 2^16 plus its low half |
| GtpWire.BigEndian32 | gtping.c:240 | the four bytes written for a 32-bit field read back as the same value |
| GtpWire.Encode | gtping.c:50-60 | the packed record occupies exactly 12 bytes |
| GtpWire.Decode | gtping.c:50-60 | the type field is byte 1, and the sequence field is bytes 8 and 9 read big-endian |
| GtpWire.DecodeEncode | gtping.c:50-60 | decoding the bytes of any record gives the record back |
| GtpWire.EncodeDecode | gtping.c:50-60 | encoding the record read from any 12 bytes gives the same 12 bytes back |
| GtpWire.BigEndianOfRead16 | gtping.c:54-56 | writing back a 16-bit value read from two bytes reproduces them |
| GtpWire.BigEndianOfRead32 | gtping.c:55 | writing back a 32-bit value read from four bytes reproduces them |
| GtpWire.EchoRequest | gtping.c:236-243 | the request `sendEcho` builds is a 12-byte record |
| GtpWire.Low16Bytes | gtping.c:241 | the bytes `htons` produces from the low 16 bits of x are (x div 256) mod 256 and x mod 256 |
| GtpWire.EchoRequestBytes | gtping.c:236-243 | the request byte by byte: 0x32, 0x01, length 4, TEID 0, the sequence number's low 16 bits big-endian, and two zero bytes |
| GtpWire.RequestCarriesSeq | gtping.c:241 | a request decodes to flags 0x32, type 1, length 4, TEID 0 and the sequence number mod 2^16 |
| GtpWire.ReceiveBuffer | gtping.c:275-277 | the zero-filled record after `recv`: each of the 12 bytes is the datagram's byte where the datagram reaches it, else 0 |
| GtpWire.ReceiveEncoded | gtping.c:275-277 | an encoded record passes through `recv` into the buffer and decodes unchanged |
| RttStats.AddSample | gtping.c:301-309 | one sample adds 1 to the count, the lag to the sum and its square to the sum of squares. A negative (sentinel) minimum or maximum becomes the lag; otherwise each only moves toward the lag. The lag always lies between the new minimum and maximum |
| RttStats.Accumulate | gtping.c:81-85 | the totals after folding in the lags from the initial state: the count is the number of lags, the sum and sum of squares are those of the lags, and no lags give the initial totals |
| RttStats.AccumulateSnoc | gtping.c:299-309 | folding in one more lag is one more sample step |
| RttStats.SingleSample | gtping.c:304-309 | after a single lag L the totals are count 1, sum L, sum of squares L*L, minimum L and maximum L |
| RttStats.AccumulateBounds | gtping.c:304-309 | for non-negative lags, the sentinel -1 remains exactly while no lag has arrived, and the minimum and maximum are lags that were seen. Every lag lies between them |
| RttStats.SumBetween | gtping.c:434 | lags between lo and hi sum to between count*lo and count*hi |
| RttStats.MeanWithinMinMax | gtping.c:431-435 | for non-negative lags the reported average `totalTime / totalTimeCount` lies between the minimum and the maximum |
| RttStats.NegativeMinimumIsReplaced | gtping.c:304-306 | a negative lag, from a clock step, is treated as the sentinel: after any lags, a negative lag followed by a non-negative lag L leaves L as the minimum |
| EchoTracker.ErrnoValue | gtping.c:278-287 | errno values are positive, and exactly ECONNREFUSED, EINTR and EAGAIN have the numbers 111, 4 and 11 |
| EchoTracker.StaleMeansBehindOrAhead | gtping.c:296 | the wrapped test `curSeq - seq >= 100` holds exactly when seq is ahead of the counter or at least 100 behind it |
| EchoTracker.ReplyType | gtping.c:290 | the type byte is the datagram's second byte, or 0 when the datagram is shorter than 2 bytes |
| EchoTracker.ReplySeq | gtping.c:275-277 | the sequence field is byte 8 times 256 plus byte 9 (bytes numbered from 0), where a byte the datagram does not reach counts as 0; a 9-byte datagram gives byte 8 times 256 |
| EchoTracker.Classify | gtping.c:273-310 | outcomes are as follows. ECONNREFUSED or EINTR gives "unreachable". Any other receive error is reported with its errno. A type other than 2 is rejected with that type. A type-2 reply is stale exactly when the wrapped distance is at least 100. Otherwise it is timed at the clock minus slot `seq % 100` |
| EchoTracker.Status | gtping.c:257-316 | `recvEchoReply` returns 0 for every datagram (timed, stale or wrong type), 1 for unreachable and a negative value for any other receive error |
| EchoTracker.AfterSends | gtping.c:245 | a run of sends leaves a ring of 100 slots |
| EchoTracker.AfterSendsSnoc | gtping.c:245 | one more send writes its clock into slot (number mod 2^32) mod 100, where the number is the start plus the sends before it |
| EchoTracker.AfterSendsAppend | gtping.c:245 | a run of sends splits at any point, the later sends starting from the ring the earlier ones left and numbered from where they stopped |
| EchoTracker.AfterSendsKeeps | gtping.c:245 | sends that stop before reaching slot k leave slot k untouched |
| EchoTracker.RingKeepsRecentSends | gtping.c:245 | the slot of a request still holds its send time after up to 99 later requests |
| EchoTracker.ReplyWithinWindowMeasured | gtping.c:296-299 | while the counter is below 2^16, a reply to any of the last 99 requests is timed against that request's own send time |
| EchoTracker.NumberAfterNext | gtping.c:375 | numbering n more requests after one `curSeq++` reaches the same number, mod 2^32, as n + 1 from before it |
| EchoTracker.RunKeepsRecentSends | gtping.c:245 | after requests 0 to n - 1 (n at most 2^32), the slot of each of the last 100 requests holds that request's own send time |
| EchoTracker.RunReplyMeasured | gtping.c:245-299 | after requests 0 to n - 1 with n below 2^16, a reply to any of the last 99 requests is timed against that request's own send time |
| EchoTracker.ReplyAfterSeqWrapIsStale | gtping.c:241 | from request number 65536 on, including the wrap of the counter itself, the reply to the request just sent is reported stale, because the wire field keeps only 16 bits |
| EchoTracker.EveryReplyStaleBeyond16Bits | gtping.c:296 | from counter 65636 on, every sequence field a reply can carry is stale |
| EchoTracker.ReplyForUnsentSeqIsMeasured | gtping.c:296-299 | a reply carrying the not-yet-sent number `curSeq` passes the test (distance 0) and is timed against that slot's old contents |
| EchoTracker.ShortDatagramIsNotEchoReply | gtping.c:275-294 | a datagram shorter than 2 bytes reads as type 0 and is rejected |
| EchoTracker.Prober.constructor | gtping.c:76-85 | the initial state: counter 0, every slot 0, totals at the initial values with both sentinels at -1 |
| EchoTracker.Prober.NextSeq | gtping.c:375 | `curSeq++` hands out the current number and advances the counter with wrap |
| EchoTracker.Prober.SendEcho | gtping.c:221-246 | the packet is the request for the number. Its slot `seq % 100` receives the send time, and the other 99 slots are unchanged |
| EchoTracker.Prober.AddLag | gtping.c:299-309 | the totals become one sample step of the old totals, and they stay the fold of all lags measured |
| EchoTracker.Prober.RecvEchoReply | gtping.c:260-317 | the outcome is the classification of the receive result against the counter and the ring. Only a timed reply changes the totals, by one sample step. The counter and the ring are untouched |
| ProbeLoop.PollTimeoutMs | gtping.c:386-390 | the poll timeout is never negative. It is 0 once the next send is due, and otherwise the time left until the next send in whole milliseconds, rounded down |
| ProbeLoop.ExitStatus | gtping.c:441 | `mainloop` returns 0 exactly when some reply was counted, and 1 otherwise |
| ProbeLoop.Termination | gtping.c:373-441 | the process ends after the loop with `recvd == 0`, after an early `return` or `exit` with its code, and not at all while the loop continues |
| ProbeLoop.NextRequest | gtping.c:372-378 | with n requests sent and the count not reached, the next request is number n mod 2^32 and stays within the count |
| ProbeLoop.LoopStep | gtping.c:365-423 | one pass of the loop. It leaves exactly when SIGINT was seen or when a send is due and `curSeq == count`. A due send advances the counter and writes its slot even if `send` fails, and a failed send returns 1. The poll timeout comes from the new `lastping`. A readable event is classified, and `recvd` grows exactly when `recvEchoReply` returned 0. A receive error returns 1, poll errors other than EINTR and EAGAIN exit with 2, and a timeout continues |
| ProbeLoop.MainLoop | gtping.c:346-442 | from the initial state, the i-th request on the wire carries number i mod 2^32. No more than `count` requests are sent, and `sent` is their number mod 2^32. The counter is the number of requests `sendEcho` was called for, and the ring is exactly the ring those sends leave (`AfterSends` from request 0), so `EchoTracker.RunReplyMeasured` applies to it. The process ends with 0, 1 or 2, and with 0 only when some reply was counted |

## Left out

- `setupSocket`, `main`, option parsing, `usage` and the signal handler are not part of this model. The handler's effect enters each iteration as the flag `timeToDie`.
- All `printf` and `fprintf` output is left out: the banner, the per-reply line with the byte count `n`, and the final summary with its loss percentage, elapsed time and the `sqrt` mean deviation. The average is covered only through `RttStats.MeanWithinMinMax`.
- `gettimeofday_dbl` and `tv2dbl` are left out: floating-point seconds become integer microseconds supplied as inputs, and the `time(0)` fallback on a clock error is not modelled.
- RttStats.Accumulate: the count `totalTimeCount` is an unbounded `nat`; its 32-bit wrap after 2^32 timed replies is not modelled.
- EchoTracker.Prober.SendEcho: the slot is `seq % 100` taken on the unsigned value. `sendEcho` receives `curSeq` as an `int`, which is negative (implementation-defined) once the counter reaches 2^31, and a negative `%` would index outside the array. That case is not modelled.
- ProbeLoop.PollTimeoutMs: the overflow of `(int)(timewait * 1000)` for waits beyond 2^31 ms is not modelled.
- ProbeLoop.LoopStep: a `send` that transmits fewer than 12 bytes while `errno` is 0 makes `sendEcho` return 0 and the loop carry on. The model treats every short send as a failure that returns 1.
- ProbeLoop.MainLoop: the loop runs over a finite script of iteration inputs, and the status is None when the script ends while the loop would go on.
- Concurrency between SIGINT and the loop is reduced to the flag being read once at the top of each iteration.
- Duplicate and reorder detection, the adaptive timeout, draining after the last send, a configurable TEID or a check of the reply's TEID, and TTL/ToS reporting are not in `gtping.c`, so they are not modelled. The request's TEID is always 0.
