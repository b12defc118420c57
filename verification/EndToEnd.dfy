/**
 From the flood sender to the sink: what either flood function puts on the wire passes
 every check, over however many segments the receive set-up scatters it.
 */
module EndToEnd {
  import opened Wire
  import opened Scatter
  import opened Sink
  import opened Flood
  import opened Streams
  import opened Receive
  import opened Layout

  function NumbersFrom(f: nat, n: nat): (idx: seq<nat>)
    ensures |idx| == n && forall k :: 0 <= k < n ==> idx[k] == f + k
  {
    seq(n, k requires 0 <= k < n => f + k)
  }

  lemma SentFromIsDelivery(clock: Clock, f: nat, msgSz: nat, from: nat, n: nat)
    ensures Delivery(Sent(Fills(true, clock, f, msgSz), from, n), clock, msgSz, NumbersFrom(f + from, n))
  {
    var stream := Fills(true, clock, f, msgSz);
    forall k | 0 <= k < n
      ensures Sent(stream, from, n)[k] == Payload(true, f + from + k, clock(f + from + k), msgSz)
    {
      assert stream(from + k) == Payload(true, f + (from + k), clock(f + (from + k)), msgSz);
    }
  }

  lemma SentIsDelivery(clock: Clock, f: nat, msgSz: nat, n: nat)
    ensures Delivery(Sent(Fills(true, clock, f, msgSz), 0, n), clock, msgSz, NumbersFrom(f, n))
  {
    SentFromIsDelivery(clock, f, msgSz, 0, n);
  }

  /** Messages arriving with these packets in them, in this order. */
  ghost predicate Carry(ms: seq<Message>, check: int, pkts: seq<seq<byte>>) {
    |ms| == |pkts| && forall k :: 0 <= k < |ms| ==> Delivered(ms[k], check) && Bytes(ms[k]) == pkts[k]
  }

  function AsEvents(pkts: seq<seq<byte>>): seq<Event> {
    seq(|pkts|, k requires 0 <= k < |pkts| => Packet(pkts[k]))
  }

  lemma {:induction false} PacketsOfEvents(pkts: seq<seq<byte>>)
    ensures Packets(AsEvents(pkts)) == pkts
  {
    if pkts != [] {
      var n := |pkts| - 1;
      PacketsOfEvents(pkts[..n]);
      assert AsEvents(pkts)[..n] == AsEvents(pkts[..n]);
    }
  }

  lemma {:induction false} PlayIsRun(s: Stats, check: int, pkts: seq<seq<byte>>)
    requires check <= 2
    ensures Play(s, check, AsEvents(pkts)) == Running(Run(s, check, pkts))
  {
    if pkts != [] {
      var n := |pkts| - 1;
      PlayIsRun(s, check, pkts[..n]);
      assert AsEvents(pkts)[..n] == AsEvents(pkts[..n]);
    }
  }

  lemma PlayOfCarried(s: Stats, check: int, ms: seq<Message>, pkts: seq<seq<byte>>)
    requires Carry(ms, check, pkts) && check != 0
    ensures PlayMessages(s, check, ms) == Play(s, check, AsEvents(pkts))
  {
    assert Arrivals(check, ms) == AsEvents(pkts);
  }

  /** The message has this packet in its segments. */
  ghost predicate Holds(m: Message, pkt: seq<byte>) {
    InMemory(m.mem, m.iov) && m.len == |pkt| <= Total(m.iov) && Bytes(m) == pkt
  }

  /** The segments are those of some message in the vector. */
  ghost predicate InSomeSlot(segments: seq<Iovec>, iov: seq<Iovec>, batch: nat, elems: nat) {
    exists pkt: nat :: pkt < batch && Offset(pkt, elems) + elems <= |iov| && segments == SliceOf(iov, elems, pkt)
  }

  /**
   These packets have come in through a vector of the receive set-up: message k in some slot of it,
   with the contents that the buffers have at that time.
   */
  ghost predicate CameIn(ms: seq<Message>, pkts: seq<seq<byte>>, iov: seq<Iovec>, batch: nat, elems: nat, bufSz: nat) {
    |ms| == |pkts| && forall k :: 0 <= k < |ms| ==>
      Holds(ms[k], pkts[k]) && Buffers(ms[k].mem, batch, bufSz) && InSomeSlot(ms[k].iov, iov, batch, elems)
  }

  /** What the set-up of the receive loops makes, for buffers whose size is an `int`. */
  ghost predicate ReceiveSetup(iov: seq<Iovec>, batch: nat, elems: nat, bufSz: nat) {
    && elems >= 1 && bufSz < TWO31
    && |iov| == batch * elems && LaidOut(iov, batch, elems, ReceiveLayout(bufSz / elems))
  }

  lemma SlotIsSafe(m: Message, pkt: seq<byte>, iov: seq<Iovec>, batch: nat, elems: nat, bufSz: nat, check: int)
    requires ReceiveSetup(iov, batch, elems, bufSz)
    requires Holds(m, pkt) && Buffers(m.mem, batch, bufSz) && InSomeSlot(m.iov, iov, batch, elems)
    ensures Delivered(m, check)
  {
    var slot: nat :| slot < batch && Offset(slot, elems) + elems <= |iov| && m.iov == SliceOf(iov, elems, slot);
    ReceiveSlice(m.mem, iov, batch, elems, bufSz, slot);
    AbuttingIsSafe(check, m.iov, m.len);
  }

  /** What comes in through the set-up meets all that the checker asks for, whatever the number of segments. */
  lemma SetupCarries(ms: seq<Message>, pkts: seq<seq<byte>>, iov: seq<Iovec>,
                     batch: nat, elems: nat, bufSz: nat, check: int)
    requires ReceiveSetup(iov, batch, elems, bufSz) && CameIn(ms, pkts, iov, batch, elems, bufSz)
    ensures Carry(ms, check, pkts)
  {
    forall k | 0 <= k < |ms|
      ensures Delivered(ms[k], check)
    {
      SlotIsSafe(ms[k], pkts[k], iov, batch, elems, bufSz, check);
    }
  }

  lemma {:induction false} ConsecutiveNumbers(f: nat, n: nat)
    ensures var idx := NumbersFrom(f, n); forall k :: 0 < k < |idx| ==> NextNumber(idx[k - 1], idx[k])
  {
  }

  lemma LevelThreeStaysClean(pkts: seq<seq<byte>>, clock: Clock, f: nat, msgSz: nat, n: nat, check: int)
    requires SaneClock(clock) && msgSz >= HDR && check > 2
    requires Delivery(pkts, clock, msgSz, NumbersFrom(f, n))
    ensures var r := Play(Stats(NO_HEADER, 0, 0, 0), check, AsEvents(pkts)); r.Running? && Clean(r.stats)
  {
    PacketsOfEvents(pkts);
    ConsecutiveNumbers(f, n);
    LevelThreeOnDelivery(check, AsEvents(pkts), clock, msgSz, NumbersFrom(f, n));
    LevelThreeDigests(check, AsEvents(pkts));
  }

  lemma LowLevelStaysClean(pkts: seq<seq<byte>>, clock: Clock, msgSz: nat, last: Header,
                           prior: seq<nat>, idx: seq<nat>, check: int)
    requires SaneClock(clock) && msgSz >= HDR && check <= 2 && Remembers(last, clock, prior)
    requires Delivery(pkts, clock, msgSz, idx) && SmallGaps(prior + idx)
    ensures var r := Play(Stats(last, 0, 0, 0), check, AsEvents(pkts)); r.Running? && Clean(r.stats)
  {
    var s := Stats(last, 0, 0, 0);
    PlayIsRun(s, check, pkts);
    LossAndWrapAreHarmless(s, check, pkts, clock, msgSz, prior, idx);
  }

  /**
   Everything a flood puts on the wire, arriving complete and in order, leaves a fresh sink
   with clean counters at every level; in particular level 3 does not exit.
   */
  lemma CompleteFloodIsClean(clock: Clock, f: nat, msgSz: nat, n: nat, check: int, ms: seq<Message>)
    requires SaneClock(clock) && msgSz >= HDR && check != 0
    requires Carry(ms, check, Sent(Fills(true, clock, f, msgSz), 0, n))
    ensures var r := PlayMessages(Stats(NO_HEADER, 0, 0, 0), check, ms);
      r.Running? && Clean(r.stats)
  {
    var pkts := Sent(Fills(true, clock, f, msgSz), 0, n);
    PlayOfCarried(Stats(NO_HEADER, 0, 0, 0), check, ms, pkts);
    CompleteFloodPlays(clock, f, msgSz, n, check, pkts);
  }

  lemma CompleteFloodPlays(clock: Clock, f: nat, msgSz: nat, n: nat, check: int, pkts: seq<seq<byte>>)
    requires SaneClock(clock) && msgSz >= HDR && pkts == Sent(Fills(true, clock, f, msgSz), 0, n)
    ensures var r := Play(Stats(NO_HEADER, 0, 0, 0), check, AsEvents(pkts)); r.Running? && Clean(r.stats)
  {
    SentIsDelivery(clock, f, msgSz, n);
    if check > 2 {
      LevelThreeStaysClean(pkts, clock, f, msgSz, n, check);
    } else {
      assert [] + NumbersFrom(f, n) == NumbersFrom(f, n);
      LowLevelStaysClean(pkts, clock, msgSz, NO_HEADER, [], NumbersFrom(f, n), check);
    }
  }

  /**
   At levels 1 and 2, so does any part of it in order whose gaps stay within the window, also
   when the sink remembers an earlier packet from a test before.
   */
  lemma LossyFloodIsClean(clock: Clock, msgSz: nat, last: Header, prior: seq<nat>, idx: seq<nat>, check: int,
                          ms: seq<Message>, pkts: seq<seq<byte>>)
    requires SaneClock(clock) && msgSz >= HDR && check != 0 && check <= 2 && Remembers(last, clock, prior)
    requires Delivery(pkts, clock, msgSz, idx) && Carry(ms, check, pkts) && SmallGaps(prior + idx)
    ensures var r := PlayMessages(Stats(last, 0, 0, 0), check, ms);
      r.Running? && Clean(r.stats)
  {
    PlayOfCarried(Stats(last, 0, 0, 0), check, ms, pkts);
    LowLevelStaysClean(pkts, clock, msgSz, last, prior, idx, check);
  }

  /**
   From end to end: a flood sent in full, received through the set-up of the receive loop with any
   number of segments, moves no counter.
   */
  lemma FloodThroughSetupIsClean(clock: Clock, f: nat, msgSz: nat, n: nat, check: int, ms: seq<Message>,
                                 iov: seq<Iovec>, batch: nat, elems: nat, bufSz: nat)
    requires SaneClock(clock) && msgSz >= HDR && check != 0
    requires ReceiveSetup(iov, batch, elems, bufSz)
    requires CameIn(ms, Sent(Fills(true, clock, f, msgSz), 0, n), iov, batch, elems, bufSz)
    ensures Readable(ms, check)
    ensures var r := PlayMessages(Stats(NO_HEADER, 0, 0, 0), check, ms);
      r.Running? && Clean(r.stats)
  {
    SetupCarries(ms, Sent(Fills(true, clock, f, msgSz), 0, n), iov, batch, elems, bufSz, check);
    CompleteFloodIsClean(clock, f, msgSz, n, check, ms);
  }

  // ------------------------------------------------------------------
  // Batches that are accepted in part, and floods in a row

  /** The numbers of the packets that n batched calls put on the wire. */
  function BatchNumbers(f: nat, batch: nat, accepted: seq<int>): seq<nat>
    requires forall i :: 0 <= i < |accepted| ==> accepted[i] >= 0
  {
    if accepted == [] then []
    else
      var n := |accepted| - 1;
      BatchNumbers(f, batch, accepted[..n]) + NumbersFrom(f + Times(n, batch), accepted[n])
  }

  lemma DeliveryOfBoth(a: seq<seq<byte>>, b: seq<seq<byte>>, clock: Clock, msgSz: nat, i: seq<nat>, j: seq<nat>)
    requires Delivery(a, clock, msgSz, i) && Delivery(b, clock, msgSz, j)
    ensures Delivery(a + b, clock, msgSz, i + j)
  {
    forall k | 0 <= k < |a + b|
      ensures (a + b)[k] == Payload(true, (i + j)[k], clock((i + j)[k]), msgSz)
    {
      if k < |a| {
        assert (a + b)[k] == a[k] && (i + j)[k] == i[k];
      } else {
        assert (a + b)[k] == b[k - |a|] && (i + j)[k] == j[k - |a|];
      }
    }
  }

  lemma {:induction false} BatchesAreDelivery(clock: Clock, f: nat, msgSz: nat, batch: nat, accepted: seq<int>)
    requires forall i :: 0 <= i < |accepted| ==> accepted[i] >= 0
    ensures Delivery(BatchesSent(Fills(true, clock, f, msgSz), batch, accepted), clock, msgSz,
                     BatchNumbers(f, batch, accepted))
  {
    if accepted != [] {
      var n := |accepted| - 1;
      var stream := Fills(true, clock, f, msgSz);
      BatchesAreDelivery(clock, f, msgSz, batch, accepted[..n]);
      SentFromIsDelivery(clock, f, msgSz, Times(n, batch), accepted[n]);
      DeliveryOfBoth(BatchesSent(stream, batch, accepted[..n]), Sent(stream, Times(n, batch), accepted[n]),
                     clock, msgSz, BatchNumbers(f, batch, accepted[..n]),
                     NumbersFrom(f + Times(n, batch), accepted[n]));
    }
  }

  /** The number `next` may follow without a false alarm. */
  ghost predicate InReach(idx: seq<nat>, next: nat) {
    idx != [] ==> idx[|idx| - 1] <= next <= idx[|idx| - 1] + WINDOW
  }

  /** These numbers begin with f if at all, have small gaps, and may be followed by `next`. */
  ghost predicate Flows(idx: seq<nat>, f: nat, next: nat) {
    SmallGaps(idx) && InReach(idx, next) && if idx == [] then next == f else idx[0] == f
  }

  /** Each call takes something; what it leaves is a gap of less than a batch. */
  lemma {:induction false} BatchesFlow(f: nat, batch: nat, accepted: seq<int>)
    requires batch <= WINDOW && forall i :: 0 <= i < |accepted| ==> 1 <= accepted[i] <= batch
    ensures Flows(BatchNumbers(f, batch, accepted), f, f + Times(|accepted|, batch))
  {
    if accepted != [] {
      var n := |accepted| - 1;
      BatchesFlow(f, batch, accepted[..n]);
      var first := f + Times(n, batch);
      OneMoreBatch(BatchNumbers(f, batch, accepted[..n]), f, first, NumbersFrom(first, accepted[n]), batch);
    }
  }

  lemma OneMoreBatch(earlier: seq<nat>, f: nat, first: nat, more: seq<nat>, batch: nat)
    requires Flows(earlier, f, first)
    requires 1 <= |more| <= batch <= WINDOW && forall k :: 0 <= k < |more| ==> more[k] == first + k
    ensures Flows(earlier + more, f, first + batch)
  {
    GapsOfBoth(earlier, more);
  }

  lemma GapsOfBoth(a: seq<nat>, b: seq<nat>)
    requires SmallGaps(a) && SmallGaps(b) && (b != [] ==> InReach(a, b[0]))
    ensures SmallGaps(a + b)
  {
    var all := a + b;
    forall k | 0 < k < |all|
      ensures all[k - 1] <= all[k] <= all[k - 1] + WINDOW
    {
      if k < |a| {
        assert a[k - 1] <= a[k] <= a[k - 1] + WINDOW;
      } else if k > |a| {
        assert b[k - |a| - 1] <= b[k - |a|] <= b[k - |a| - 1] + WINDOW;
      }
    }
  }

  /**
   A batched flood of which each call accepts only a part, also when it follows an earlier flood,
   leaves levels 1 and 2 clean: the numbers left out stay within the window.
   */
  lemma PartialFloodIsClean(clock: Clock, f: nat, msgSz: nat, batch: nat, accepted: seq<int>, check: int,
                            last: Header, prior: seq<nat>, ms: seq<Message>)
    requires SaneClock(clock) && msgSz >= HDR && check != 0 && check <= 2 && batch <= WINDOW
    requires forall i :: 0 <= i < |accepted| ==> 1 <= accepted[i] <= batch
    requires Remembers(last, clock, prior) && InReach(prior, f)
    requires Carry(ms, check, BatchesSent(Fills(true, clock, f, msgSz), batch, accepted))
    ensures var r := PlayMessages(Stats(last, 0, 0, 0), check, ms);
      r.Running? && Clean(r.stats)
  {
    BatchesAreDelivery(clock, f, msgSz, batch, accepted);
    BatchesFlow(f, batch, accepted);
    GapsOfBoth(prior, BatchNumbers(f, batch, accepted));
    LossyFloodIsClean(clock, msgSz, last, prior, BatchNumbers(f, batch, accepted), check, ms,
                      BatchesSent(Fills(true, clock, f, msgSz), batch, accepted));
  }

  /** The number after a complete batched flood: the remainder numbers a whole batch. */
  function NumberAfter(f: nat, count: nat, batch: nat): nat
    requires batch >= 1
  {
    f + Times(CeilDiv(count, batch), batch)
  }

  /** It is the next one only without a remainder. */
  lemma NumberAfterFlood(f: nat, count: nat, batch: nat)
    requires count >= 1 && 1 <= batch <= TWO32
    ensures f + count <= NumberAfter(f, count, batch)
    ensures NextNumber(f + count - 1, NumberAfter(f, count, batch)) <==> count % batch == 0
  {
    var n, last := count / batch, count % batch;
    CeilDivBatches(count, batch);
    TimesIsProduct(n, batch);
    assert count == Times(n, batch) + last;
    PaddedNumber(f + count, if last == 0 then 0 else batch - last);
  }

  lemma PaddedNumber(next: nat, pad: nat)
    requires next >= 1 && pad < TWO32
    ensures NextNumber(next - 1, next + pad) <==> pad == 0
  {
    WrapStep(next, pad);
  }

  lemma TwoRunsOfNumbers(f: nat, count: nat, g: nat, n: nat)
    requires count >= 1 && n >= 1 && f + count <= g
    ensures var idx := NumbersFrom(f, count) + NumbersFrom(g, n);
      && (forall k :: 0 < k < |idx| ==> idx[k - 1] <= idx[k])
      && ((forall k :: 0 < k < |idx| ==> NextNumber(idx[k - 1], idx[k])) <==> NextNumber(f + count - 1, g))
  {
    var idx := NumbersFrom(f, count) + NumbersFrom(g, n);
    assert idx[count - 1] == f + count - 1 && idx[count] == g;
    forall k | 0 < k < |idx| && k != count
      ensures idx[k] == idx[k - 1] + 1 && NextNumber(idx[k - 1], idx[k])
    {
    }
  }

  lemma FloodAfterFlood(check: int, events: seq<Event>, clock: Clock, msgSz: nat, f: nat, count: nat, g: nat, n: nat)
    requires check > 2 && SaneClock(clock) && msgSz >= HDR && count >= 1 && n >= 1 && f + count <= g
    requires Packets(events) == Sent(Fills(true, clock, f, msgSz), 0, count) + Sent(Fills(true, clock, g, msgSz), 0, n)
    ensures Play(Stats(NO_HEADER, 0, 0, 0), check, events).Running? <==> NextNumber(f + count - 1, g)
  {
    SentIsDelivery(clock, f, msgSz, count);
    SentIsDelivery(clock, g, msgSz, n);
    DeliveryOfBoth(Sent(Fills(true, clock, f, msgSz), 0, count), Sent(Fills(true, clock, g, msgSz), 0, n),
                   clock, msgSz, NumbersFrom(f, count), NumbersFrom(g, n));
    TwoRunsOfNumbers(f, count, g, n);
    LevelThreeOnDelivery(check, events, clock, msgSz, NumbersFrom(f, count) + NumbersFrom(g, n));
  }

  /**
   At level 3, a flood that follows a complete batched one is let through, resets or not, exactly
   when the first one had no remainder batch.
   */
  lemma FloodAfterBatches(check: int, events: seq<Event>, clock: Clock, f: nat, msgSz: nat,
                          count: nat, batch: nat, n: nat)
    requires check > 2 && SaneClock(clock) && msgSz >= HDR && count >= 1 && n >= 1 && 1 <= batch <= TWO32
    requires Packets(events) == Sent(Fills(true, clock, f, msgSz), 0, count) +
                                Sent(Fills(true, clock, NumberAfter(f, count, batch), msgSz), 0, n)
    ensures Play(Stats(NO_HEADER, 0, 0, 0), check, events).Running? <==> count % batch == 0
  {
    NumberAfterFlood(f, count, batch);
    FloodAfterFlood(check, events, clock, msgSz, f, count, NumberAfter(f, count, batch), n);
  }

  // ------------------------------------------------------------------
  // The receive loop on a flood

  /** How many messages the first k calls brought. */
  function Brought(answers: seq<BatchAnswer>, k: nat): nat
    requires k <= |answers|
  {
    if k == 0 then 0
    else Brought(answers, k - 1) + if answers[k - 1].Messages? then |answers[k - 1].ms| else 0
  }

  /** The calls cut the stream into consecutive pieces: message i of a call comes behind those of the calls before. */
  ghost predicate BringInOrder(answers: seq<BatchAnswer>, check: int, stream: Stream) {
    forall k :: 0 <= k < |answers| && answers[k].Messages? ==>
      CallBrings(answers[k].ms, check, stream, Brought(answers, k))
  }

  ghost predicate CallBrings(ms: seq<Message>, check: int, stream: Stream, first: nat) {
    forall i :: 0 <= i < |ms| ==> Delivered(ms[i], check) && Bytes(ms[i]) == stream(first + i)
  }

  /** What the calls brought is the beginning of the stream. */
  lemma {:induction false} BringsStream(answers: seq<BatchAnswer>, k: nat, check: int, stream: Stream)
    requires k <= |answers| && BringInOrder(answers, check, stream)
    ensures |AllMessages(answers[..k])| == Brought(answers, k)
    ensures Carry(AllMessages(answers[..k]), check, Sent(stream, 0, Brought(answers, k)))
  {
    if k > 0 {
      var before, a := answers[..k - 1], answers[k - 1];
      BringsStream(answers, k - 1, check, stream);
      assert answers[..k] == before + [a];
      MessagesNext(before, a);
      if a.Messages? {
        CarryMore(AllMessages(before), a.ms, check, stream);
      } else {
        assert AllMessages(answers[..k]) == AllMessages(before);
      }
    }
  }

  lemma CarryMore(earlier: seq<Message>, ms: seq<Message>, check: int, stream: Stream)
    requires Carry(earlier, check, Sent(stream, 0, |earlier|)) && CallBrings(ms, check, stream, |earlier|)
    ensures Carry(earlier + ms, check, Sent(stream, 0, |earlier| + |ms|))
  {
    var all := earlier + ms;
    forall k | 0 <= k < |all|
      ensures Delivered(all[k], check) && Bytes(all[k]) == stream(k)
    {
      if k < |earlier| {
        assert all[k] == earlier[k] && Bytes(earlier[k]) == Sent(stream, 0, |earlier|)[k];
      } else {
        assert all[k] == ms[k - |earlier|];
      }
    }
  }

  lemma {:induction false} BroughtGrows(answers: seq<BatchAnswer>, j: nat, k: nat)
    requires j <= k <= |answers|
    ensures Brought(answers, j) <= Brought(answers, k)
  {
    if j < k {
      BroughtGrows(answers, j, k - 1);
    }
  }

  /** Messages that carry a flood, to a fresh sink: the run goes on, clean, with all their bytes. */
  lemma FloodReceived(clock: Clock, f: nat, msgSz: nat, check: int, answers: seq<BatchAnswer>, k: nat)
    requires SaneClock(clock) && msgSz >= HDR && check != 0 && k <= |answers|
    requires BringInOrder(answers, check, Fills(true, clock, f, msgSz))
    ensures var ms := AllMessages(answers[..k]);
      && |ms| == Brought(answers, k) && Readable(ms, check) && LengthSum(ms) == |ms| * msgSz
      && var r := PlayMessages(Stats(NO_HEADER, 0, 0, 0), check, ms); r.Running? && Clean(r.stats)
  {
    var ms := AllMessages(answers[..k]);
    BringsStream(answers, k, check, Fills(true, clock, f, msgSz));
    CompleteFloodIsClean(clock, f, msgSz, |ms|, check, ms);
    SentLengths(clock, f, msgSz, |ms|);
    CarriedLengths(ms, check, Sent(Fills(true, clock, f, msgSz), 0, |ms|), msgSz);
  }

  lemma SentLengths(clock: Clock, f: nat, msgSz: nat, n: nat)
    ensures forall i :: 0 <= i < n ==> |Sent(Fills(true, clock, f, msgSz), 0, n)[i]| == msgSz
  {
    var stream := Fills(true, clock, f, msgSz);
    forall i: nat | i < n
      ensures |Sent(stream, 0, n)[i]| == msgSz
    {
      assert stream(i) == Payload(true, f + i, clock(f + i), msgSz);
    }
  }

  lemma {:induction false} CarriedLengths(ms: seq<Message>, check: int, pkts: seq<seq<byte>>, len: nat)
    requires Carry(ms, check, pkts) && forall i :: 0 <= i < |pkts| ==> |pkts[i]| == len
    ensures LengthSum(ms) == |ms| * len
  {
    if ms != [] {
      var n := |ms| - 1;
      CarriedLengths(ms[..n], check, pkts[..n], len);
      assert Delivered(ms[n], check) && |Bytes(ms[n])| == ms[n].len;
      Next(n, len);
    }
  }

  /**
   `sink_with_recvMmsg` on a fresh sink, when its calls bring a complete flood in consecutive pieces of
   any sizes, EAGAIN in between or not: it does not exit, receives all packets and all their bytes, and
   leaves every counter clean at every level.
   */
  method ReceiveFlood(c: Checker, count: nat, batch: nat, answers: seq<BatchAnswer>,
                      ghost clock: Clock, ghost f: nat, ghost msgSz: nat)
    returns (r: BatchReport)
    requires c.check != 0 && c.State() == Stats(NO_HEADER, 0, 0, 0) && SaneClock(clock) && msgSz >= HDR
    requires count + batch < TWO31 && |answers| < TWO31 && Legal(answers, batch, c.check) && !AnyFailure(answers)
    requires BringInOrder(answers, c.check, Fills(true, clock, f, msgSz)) && Brought(answers, |answers|) == count
    modifies c
    ensures r.BatchReport? && r.packets == count - r.tryAgain && r.bytes == count * msgSz
    ensures Clean(c.State())
  {
    ghost var used;
    r, used := SinkWithRecvMmsg(c, count, batch, answers);
    FloodVerdict(clock, f, msgSz, c.check, answers, used, count, batch);
  }

  /** No beginning of such calls stops the process, and one that brings enough brings all. */
  lemma FloodVerdict(clock: Clock, f: nat, msgSz: nat, check: int, answers: seq<BatchAnswer>,
                     used: nat, count: nat, batch: nat)
    requires SaneClock(clock) && msgSz >= HDR && check != 0 && used <= |answers|
    requires Legal(answers, batch, check) && Legal(answers[..used], batch, check) && !AnyFailure(answers)
    requires BringInOrder(answers, check, Fills(true, clock, f, msgSz)) && Brought(answers, |answers|) == count
    ensures |AllMessages(answers)| == count && !Stopped(check, Stats(NO_HEADER, 0, 0, 0), answers[..used], batch)
    ensures var ms := AllMessages(answers[..used]);
      && |ms| <= count && Readable(ms, check) && LengthSum(ms) == |ms| * msgSz
      && var r := PlayMessages(Stats(NO_HEADER, 0, 0, 0), check, ms); r.Running? && Clean(r.stats)
  {
    FloodReceived(clock, f, msgSz, check, answers, used);
    BroughtGrows(answers, used, |answers|);
    assert answers[..|answers|] == answers;
    BringsStream(answers, |answers|, check, Fills(true, clock, f, msgSz));
    assert !AnyFailure(answers[..used]);
  }
}
