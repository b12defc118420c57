/**
 The UDP flood sender: `fill_buf` tiles a stamped header over a payload, and the packets
 leave one at a time (`flood_with_sendto`) or in batches (`flood_with_sendMmsg`).  The
 clock and the answers of the kernel are parameters.
 */
module Flood {
  import opened Wire

  /** What the clock shows. */
  datatype Reading = Reading(sec: nat, nsec: nat)

  /** The n-th reading of the clock by `fill_buf`. */
  type Clock = nat -> Reading

  // ------------------------------------------------------------------
  // Specification: what goes on the wire

  /** n bytes of a header repeated from the start, the last copy cut short. */
  function Tile(h: seq<byte>, n: nat): (r: seq<byte>)
    requires |h| == HDR
    ensures |r| == n
  {
    seq(n, j requires 0 <= j < n => h[j % HDR])
  }

  function Zeros(n: nat): (r: seq<byte>)
    ensures |r| == n && forall j :: 0 <= j < n ==> r[j] == 0
  {
    seq(n, _ => 0)
  }

  function Stamped(sequence: nat, ts: Reading): Header {
    Header(WIRE_MAGIC, sequence % TWO32, ts.sec % TWO32, ts.nsec / 1000 % TWO32)
  }

  /** The packet numbered `sequence`; without pktgen headers the buffer stays zeroed. */
  function Payload(pktgenHdr: bool, sequence: nat, ts: Reading, msgSz: nat): (r: seq<byte>)
    ensures |r| == msgSz
  {
    if pktgenHdr then Tile(Encode(Stamped(sequence, ts)), msgSz) else Zeros(msgSz)
  }

  /** This header says: packet `number`, sent at that time, in whole microseconds. */
  predicate IsStamp(h: Header, number: uint32, ts: Reading) {
    && SwapBytes(h.magic) == PKTGEN_MAGIC && h.seqNum == number
    && h.sec == ts.sec % TWO32
    && (ts.nsec < 1_000_000_000 ==> 1000 * h.usec <= ts.nsec < 1000 * h.usec + 1000)
  }

  lemma StampedIsStamp(sequence: nat, ts: Reading)
    ensures IsStamp(Stamped(sequence, ts), sequence % TWO32, ts)
  {
    MagicField(WIRE_MAGIC);
  }

  /** The whole message repeats the sixteen bytes of this header, the last copy cut short. */
  predicate Repeats(data: seq<byte>, h: Header) {
    forall j :: 0 <= j < |data| ==> data[j] == Encode(h)[j % HDR]
  }

  lemma FirstRepetition(data: seq<byte>, h: Header)
    requires Repeats(data, h) && |data| >= HDR
    ensures Decode(data[..HDR]) == h
  {
    forall j | 0 <= j < HDR
      ensures data[j] == Encode(h)[j]
    {
      assert j % HDR == j;
    }
    assert data[..HDR] == Encode(h);
    DecodeEncode(h);
  }

  /** A filled message: every byte of it repeats a header with the next number and the time. */
  lemma PayloadSays(sequence: nat, ts: Reading, len: nat)
    ensures var data := Payload(true, sequence, ts, len);
      && Repeats(data, Stamped(sequence, ts)) && IsStamp(Stamped(sequence, ts), sequence % TWO32, ts)
      && (len >= HDR ==> IsStamp(Decode(data[..HDR]), sequence % TWO32, ts))
  {
    StampedIsStamp(sequence, ts);
    if len >= HDR {
      FirstRepetition(Payload(true, sequence, ts, len), Stamped(sequence, ts));
    }
  }

  /** What successive fills leave in a message. */
  type Stream = nat -> seq<byte>

  /** The fills after the first f of the process: the counter and the clock readings go in step. */
  function Fills(pktgenHdr: bool, clock: Clock, f: nat, msgSz: nat): Stream {
    (i: nat) => Payload(pktgenHdr, f + i, clock(f + i), msgSz)
  }

  /** `count` packets of a stream from number `from` on. */
  function Sent(stream: Stream, from: nat, count: nat): (r: seq<seq<byte>>)
    ensures |r| == count
  {
    seq(count, i requires 0 <= i < count => stream(from + i))
  }

  lemma SentSplit(stream: Stream, from: nat, a: nat, b: nat)
    ensures Sent(stream, from, a) + Sent(stream, from + a, b) == Sent(stream, from, a + b)
  {
  }

  lemma SentNext(stream: Stream, from: nat, n: nat)
    ensures Sent(stream, from, n + 1) == Sent(stream, from, n) + [stream(from + n)]
  {
  }

  /** How many of the first n calls succeed before one fails. */
  function Succeeding(answers: seq<int>, n: nat): (k: nat)
    requires n <= |answers|
    ensures k <= n && (k < n ==> answers[k] < 0)
    ensures forall j :: 0 <= j < k ==> answers[j] >= 0
  {
    if n == 0 then 0
    else
      var k := Succeeding(answers, n - 1);
      if k < n - 1 || answers[n - 1] < 0 then k else n
  }

  lemma {:induction false} FirstFailure(answers: seq<int>, k: nat, n: nat)
    requires k < n <= |answers| && Succeeding(answers, k) == k && answers[k] < 0
    ensures Succeeding(answers, n) == k
  {
    if n > k + 1 {
      FirstFailure(answers, k, n - 1);
    }
  }

  /** The total of some counts of things that are `unit` bytes long each. */
  function Sum(xs: seq<int>, unit: nat): int {
    if xs == [] then 0 else Sum(xs[..|xs| - 1], unit) + xs[|xs| - 1] * unit
  }

  lemma SumNext(xs: seq<int>, unit: nat, n: nat)
    requires n < |xs|
    ensures Sum(xs[..n + 1], unit) == Sum(xs[..n], unit) + xs[n] * unit
  {
    assert xs[..n + 1][..n] == xs[..n];
  }

  /** The total of one count is its length in bytes, and totals add up. */
  lemma {:induction false} SumAddsUp(xs: seq<int>, ys: seq<int>, unit: nat)
    ensures forall x :: Sum([x], unit) == x * unit
    ensures Sum(xs + ys, unit) == Sum(xs, unit) + Sum(ys, unit)
  {
    if ys == [] {
      assert xs + ys == xs;
    } else {
      SumAddsUp(xs, ys[..|ys| - 1], unit);
      assert (xs + ys)[..|xs + ys| - 1] == xs + ys[..|ys| - 1];
    }
  }

  /** n * k by repeated addition. */
  function Times(n: nat, k: nat): nat {
    if n == 0 then 0 else Times(n - 1, k) + k
  }

  lemma {:induction false} TimesIsProduct(n: nat, k: nat)
    ensures Times(n, k) == n * k
  {
    if n > 0 {
      TimesIsProduct(n - 1, k);
      Distribute(n - 1, 1, k);
    }
  }

  lemma Regroup<T>(a: seq<T>, b: seq<T>, c: seq<T>)
    ensures a + b + c == a + (b + c)
  {
  }

  lemma Distribute(a: nat, b: nat, c: nat)
    ensures (a + b) * c == a * c + b * c
  {
  }

  /** What n batched calls put on the wire: of each filled batch, as many as were accepted. */
  function BatchesSent(stream: Stream, batch: nat, accepted: seq<int>): seq<seq<byte>>
    requires forall i :: 0 <= i < |accepted| ==> accepted[i] >= 0
  {
    if accepted == [] then []
    else
      var n := |accepted| - 1;
      BatchesSent(stream, batch, accepted[..n]) + Sent(stream, Times(n, batch), accepted[n])
  }

  lemma BatchesNext(stream: Stream, batch: nat, answers: seq<int>, n: nat)
    requires n < |answers| && forall i :: 0 <= i <= n ==> answers[i] >= 0
    ensures BatchesSent(stream, batch, answers[..n + 1])
         == BatchesSent(stream, batch, answers[..n]) + Sent(stream, Times(n, batch), answers[n])
  {
    assert answers[..n + 1][..n] == answers[..n];
  }

  /**
   Which packet is where: of the k-th call, the first accepted[k] of its batch are on the wire, in
   order, behind those of the calls before.
   */
  lemma {:induction false} BatchesSentAt(stream: Stream, batch: nat, accepted: seq<int>, k: nat, i: nat)
    requires forall j :: 0 <= j < |accepted| ==> accepted[j] >= 0
    requires k < |accepted| && i < accepted[k]
    ensures |BatchesSent(stream, batch, accepted)| == Sum(accepted, 1)
    ensures 0 <= Sum(accepted[..k], 1) && Sum(accepted[..k], 1) + i < Sum(accepted, 1) && 0 <= k * batch
    ensures BatchesSent(stream, batch, accepted)[Sum(accepted[..k], 1) + i] == stream(k * batch + i)
  {
    var n := |accepted| - 1;
    BatchesSize(stream, batch, accepted);
    BatchesSize(stream, batch, accepted[..n]);
    if k < n {
      BatchesSentAt(stream, batch, accepted[..n], k, i);
      assert accepted[..n][..k] == accepted[..k];
    } else {
      TimesIsProduct(k, batch);
    }
  }

  lemma {:induction false} BatchesSize(stream: Stream, batch: nat, accepted: seq<int>)
    requires forall j :: 0 <= j < |accepted| ==> accepted[j] >= 0
    ensures |BatchesSent(stream, batch, accepted)| == Sum(accepted, 1)
  {
    if accepted != [] {
      BatchesSize(stream, batch, accepted[..|accepted| - 1]);
    }
  }

  /** Batches that are accepted whole amount to sending the packets one by one. */
  lemma {:induction false} FullBatches(stream: Stream, batch: nat, msgSz: nat, accepted: seq<int>)
    requires forall i :: 0 <= i < |accepted| ==> accepted[i] == batch
    ensures BatchesSent(stream, batch, accepted) == Sent(stream, 0, Times(|accepted|, batch))
    ensures Sum(accepted, msgSz) == Times(|accepted|, batch) * msgSz
  {
    if accepted != [] {
      var n := |accepted| - 1;
      FullBatches(stream, batch, msgSz, accepted[..n]);
      SentSplit(stream, 0, Times(n, batch), batch);
      Distribute(Times(n, batch), batch, msgSz);
    }
  }

  // ------------------------------------------------------------------
  // Whole runs of batched sending

  function CeilDiv(count: nat, batch: nat): nat
    requires batch >= 1
  {
    (count + batch - 1) / batch
  }

  /** An answer for each call: an error, or at most as many messages as were offered. */
  predicate Answered(n: nat, last: nat, batch: nat, answers: seq<int>) {
    && n + (if last == 0 then 0 else 1) <= |answers|
    && (forall k :: 0 <= k < n ==> answers[k] <= batch)
    && (last != 0 ==> answers[n] <= last)
  }

  /** The kernel takes every message it is offered. */
  predicate AllAccepted(n: nat, last: nat, batch: nat, answers: seq<int>)
    requires Answered(n, last, batch, answers)
  {
    && (forall k :: 0 <= k < n ==> answers[k] == batch)
    && (last != 0 ==> answers[n] == last)
  }

  /** The calls that put something on the wire, and the fills made, by n full batches and a remainder. */
  function Calls(n: nat, last: nat, answers: seq<int>): (r: (nat, nat))
    requires n + (if last == 0 then 0 else 1) <= |answers|
    ensures r.0 <= |answers| && (r.0 != r.1 ==> r.0 < |answers| && answers[r.0] < 0)
  {
    var k := Succeeding(answers, n);
    if k < n then (k, k + 1)
    else if last == 0 then (n, n)
    else (if answers[n] < 0 then n else n + 1, n + 1)
  }

  /** All calls, the remainder included, are made until one fails; every call made has filled a batch. */
  lemma CallsUntilFailure(n: nat, last: nat, answers: seq<int>)
    requires n + (if last == 0 then 0 else 1) <= |answers|
    ensures var all := n + (if last == 0 then 0 else 1); var ok := Succeeding(answers, all);
      Calls(n, last, answers) == (ok, if ok < all then ok + 1 else all)
  {
  }

  /** The head of `flood_with_sendMmsg`: full batches and a remainder. */
  method Batches(count: nat, batch: nat) returns (batches: nat, last: nat)
    requires batch >= 1
    ensures batches * batch + last == count && last < batch
    ensures batches == count / batch && last == count % batch
  {
    batches := count / batch;
    last := count - batches * batch;
  }

  lemma CeilDivBatches(count: nat, batch: nat)
    requires batch >= 1
    ensures CeilDiv(count, batch) == count / batch + (if count % batch == 0 then 0 else 1)
  {
    var n, last := count / batch, count % batch;
    assert count + batch - 1 == n * batch + (last + batch - 1);
    if last == 0 {
      DivUnique(count + batch - 1, batch, n, batch - 1);
    } else {
      Distribute(n, 1, batch);
      DivUnique(count + batch - 1, batch, n + 1, last - 1);
    }
  }

  lemma DivUnique(a: nat, b: nat, q: nat, r: nat)
    requires b >= 1 && a == q * b + r && r < b
    ensures a / b == q
  {
    var d := a / b - q;
    assert d * b == r - a % b;
    if d >= 1 {
      SlotsApart(0, d, b);
    }
  }

  /**
   Batched sending refines sending one at a time: when the kernel takes everything, the batches
   carry packets 0 to count - 1 in order, although the counter moves on by whole batches.
   */
  lemma WholeRun(stream: Stream, n: nat, last: nat, batch: nat, msgSz: nat, answers: seq<int>)
    requires Answered(n, last, batch, answers) && AllAccepted(n, last, batch, answers)
    ensures Succeeding(answers, n) == n
    ensures BatchesSent(stream, batch, answers[..if last == 0 then n else n + 1])
         == Sent(stream, 0, Times(n, batch) + last)
    ensures Sum(answers[..n], msgSz) == Times(n, batch) * msgSz
  {
    FullBatches(stream, batch, msgSz, answers[..n]);
    if last != 0 {
      BatchesNext(stream, batch, answers, n);
      SentSplit(stream, 0, Times(n, batch), last);
    }
  }

  /** The same for a count of packets... */
  lemma AcceptedFlood(stream: Stream, count: nat, batch: nat, msgSz: nat, answers: seq<int>)
    requires batch >= 1 && Answered(count / batch, count % batch, batch, answers)
    requires AllAccepted(count / batch, count % batch, batch, answers)
    ensures var n := CeilDiv(count, batch);
      && n <= |answers| && Calls(count / batch, count % batch, answers) == (n, n)
      && Succeeding(answers, count / batch) == count / batch
      && (forall i :: 0 <= i < n ==> answers[i] >= 0)
      && BatchesSent(stream, batch, answers[..n]) == Sent(stream, 0, count)
    ensures Sum(answers[..count / batch], msgSz) == (count - count % batch) * msgSz
  {
    var n, last := count / batch, count % batch;
    WholeRun(stream, n, last, batch, msgSz, answers);
    CeilDivBatches(count, batch);
    TimesIsProduct(n, batch);
    CountInBatches(count, batch);
  }

  lemma CountInBatches(count: nat, batch: nat)
    requires batch >= 1
    ensures count == count / batch * batch + count % batch
  {
  }

  /** ...and where it leaves the counter. */
  lemma CounterAfter(readings: nat, n: nat, batch: nat)
    ensures (readings + Times(n, batch)) % TWO32 == (readings % TWO32 + batch * n) % TWO32
  {
    TimesIsProduct(n, batch);
    WrapAdd(readings, batch * n);
  }

  // ------------------------------------------------------------------
  // Counter and buffer

  /** Adding to a wrapped counter wraps to the same value as adding first. */
  lemma WrapAdd(x: nat, n: nat)
    ensures (x % TWO32 + n) % TWO32 == (x + n) % TWO32
  {
    var q := x / TWO32;
    assert x == q * TWO32 + x % TWO32;
    assert x + n == (x % TWO32 + n) + q * TWO32;
  }

  lemma SlotsApart(p: nat, q: nat, msgSz: nat)
    requires p < q
    ensures 0 <= p * msgSz && p * msgSz + msgSz <= q * msgSz
  {
    var gap: nat := q - p - 1;
    assert q * msgSz == p * msgSz + msgSz + gap * msgSz;
  }

  /** Slot p of the buffer, the bytes from p * msgSz on, holds the message m. */
  predicate SlotHolds(data: seq<byte>, msgSz: nat, p: nat, m: seq<byte>) {
    0 <= p * msgSz && p * msgSz + msgSz <= |data| && data[p * msgSz..p * msgSz + msgSz] == m
  }

  predicate HoldsBatch(data: seq<byte>, msgSz: nat, messages: seq<seq<byte>>) {
    forall p :: 0 <= p < |messages| ==> SlotHolds(data, msgSz, p, messages[p])
  }

  /** Writing the next slot extends a partly filled batch. */
  lemma NextSlot(data: seq<byte>, data': seq<byte>, msgSz: nat, messages: seq<seq<byte>>, m: seq<byte>, at: nat)
    requires HoldsBatch(data, msgSz, messages) && |m| == msgSz
    requires at == |messages| * msgSz && at + msgSz <= |data|
    requires data' == data[..at] + m + data[at + msgSz..]
    ensures HoldsBatch(data', msgSz, messages + [m])
  {
    var ms := messages + [m];
    forall p | 0 <= p < |ms|
      ensures SlotHolds(data', msgSz, p, ms[p])
    {
      if p < |messages| {
        SlotsApart(p, |messages|, msgSz);
        assert SlotHolds(data, msgSz, p, messages[p]);
        var start := p * msgSz;
        assert data'[start..start + msgSz] == data[start..start + msgSz];
      }
    }
  }

  // ------------------------------------------------------------------
  // The sender

  class Flooder {
    const pktgenHdr: bool
    const clock: Clock
    /** The static counter of `fill_buf`. */
    var sequence: uint32
    /** Clock readings taken so far. */
    var readings: nat
    /** Packets accepted by the kernel, in order. */
    var wire: seq<seq<byte>>
    /** `bytes` of the time_bench_record. */
    var bytes: int

    constructor (pktgenHdr: bool, clock: Clock)
      ensures Valid() && this.pktgenHdr == pktgenHdr && this.clock == clock
      ensures sequence == 0 && readings == 0 && wire == [] && bytes == 0
    {
      this.pktgenHdr := pktgenHdr;
      this.clock := clock;
      sequence, readings, wire, bytes := 0, 0, [], 0;
    }

    /** Every fill takes the next number and one reading, so the counter is the wrapped number of fills. */
    ghost predicate Valid()
      reads this`sequence, this`readings
    {
      sequence == readings % TWO32
    }

    /** n fills have happened since reading f; without pktgen headers nothing moves. */
    predicate FilledFrom(f: nat, n: nat)
      reads this`readings
    {
      readings == if pktgenHdr then f + n else f
    }

    method FillBuf(buf: array<byte>, at: nat, len: nat)
      requires Valid() && at + len <= buf.Length
      modifies this`sequence, this`readings, buf
      ensures FilledFrom(old(readings), 1) && Valid()
      ensures pktgenHdr ==>
        buf[..] == old(buf[..at]) + Payload(true, old(readings), clock(old(readings)), len) + old(buf[at + len..])
      ensures pktgenHdr && len >= HDR ==> IsStamp(Decode(buf[at..at + HDR]), old(sequence), clock(old(readings)))
      ensures pktgenHdr ==>
        exists h :: IsStamp(h, old(sequence), clock(old(readings))) && Repeats(buf[at..at + len], h)
      ensures !pktgenHdr ==> buf[..] == old(buf[..])
    {
      if !pktgenHdr {
        return;
      }
      ghost var number := readings;
      var ts := clock(readings);
      var sec: uint32, usec: uint32 := ts.sec % TWO32, ts.nsec / 1000 % TWO32;
      var hdr := Header(SwapBytes(PKTGEN_MAGIC), sequence, sec, usec);
      MagicField(SwapBytes(PKTGEN_MAGIC));
      SwapTwice(PKTGEN_MAGIC);
      assert hdr == Stamped(readings, ts);
      WrapAdd(readings, 1);
      sequence := (sequence + 1) % TWO32;
      readings := readings + 1;
      TileBuf(buf, at, Encode(hdr), len);
      PayloadSays(number, ts, len);
      assert buf[at..at + len] == Payload(true, number, ts, len);
      assert len >= HDR ==> buf[at..at + HDR] == buf[at..at + len][..HDR];
    }

    /** The copying loop of `fill_buf`. */
    static method TileBuf(buf: array<byte>, at: nat, hdr: seq<byte>, len: nat)
      requires |hdr| == HDR && at + len <= buf.Length
      modifies buf
      ensures buf[..] == old(buf[..at]) + Tile(hdr, len) + old(buf[at + len..])
    {
      var l := 0;
      while l < len
        invariant 0 <= l && l % HDR == 0
        invariant forall j :: 0 <= j < len && j < l ==> buf[at + j] == hdr[j % HDR]
        invariant forall j :: 0 <= j < at || at + len <= j < buf.Length ==> buf[j] == old(buf[j])
      {
        var curLen := if AsUnsigned(len - l) < HDR then len - l else HDR;
        CopyChunk(buf, at, l, hdr, curLen);
        l := l + HDR;
      }
      TiledBetween(buf[..], old(buf[..]), at, hdr, len);
    }

    static lemma TiledBetween(data: seq<byte>, before: seq<byte>, at: nat, hdr: seq<byte>, len: nat)
      requires |hdr| == HDR && at + len <= |data| == |before|
      requires forall j :: 0 <= j < len ==> data[at + j] == hdr[j % HDR]
      requires forall j :: 0 <= j < at || at + len <= j < |data| ==> data[j] == before[j]
      ensures data == before[..at] + Tile(hdr, len) + before[at + len..]
    {
      assert data[at..at + len] == Tile(hdr, len);
      assert data == data[..at] + data[at..at + len] + data[at + len..];
    }

    /** Copies one more, possibly truncated, header behind the l bytes already tiled. */
    static method CopyChunk(buf: array<byte>, at: nat, l: nat, hdr: seq<byte>, curLen: nat)
      requires |hdr| == HDR && curLen <= HDR && l % HDR == 0 && at + l + curLen <= buf.Length
      requires forall j :: 0 <= j < l ==> buf[at + j] == hdr[j % HDR]
      modifies buf
      ensures forall j :: 0 <= j < l + curLen ==> buf[at + j] == hdr[j % HDR]
      ensures forall j :: 0 <= j < at || at + l + curLen <= j < buf.Length ==> buf[j] == old(buf[j])
    {
      MemCpy(buf, at + l, hdr, curLen);
      forall j | 0 <= j < l + curLen
        ensures buf[at + j] == hdr[j % HDR]
      {
        if j < l {
          assert buf[at + j] == old(buf[at + j]);
        } else {
          assert j % HDR == j - l;
          assert buf[at + l + (j - l)] == hdr[j - l];
        }
      }
    }

    static method MemCpy(dst: array<byte>, at: nat, src: seq<byte>, n: nat)
      requires at + n <= dst.Length && n <= |src|
      modifies dst
      ensures forall j :: 0 <= j < n ==> dst[at + j] == src[j]
      ensures forall j :: 0 <= j < at || at + n <= j < dst.Length ==> dst[j] == old(dst[j])
    {
      forall j | 0 <= j < n {
        dst[at + j] := src[j];
      }
    }

    /** `malloc_payload_buffer`. */
    static method ZeroedBuffer(size: nat) returns (buf: array<byte>)
      ensures fresh(buf) && buf.Length == size && buf[..] == Zeros(size)
    {
      buf := new byte[size](_ => 0);
    }

    /** Fills one message: the n-th fill since reading f. */
    method FillMessage(msgBuf: array<byte>, at: nat, msgSz: nat, ghost f: nat, ghost n: nat, ghost stream: Stream)
      requires at + msgSz <= msgBuf.Length
      requires Valid() && FilledFrom(f, n) && stream == Fills(pktgenHdr, clock, f, msgSz)
      requires !pktgenHdr ==> msgBuf[at..at + msgSz] == Zeros(msgSz)
      modifies this`sequence, this`readings, msgBuf
      ensures Valid() && FilledFrom(f, n + 1)
      ensures |stream(n)| == msgSz
      ensures msgBuf[..] == old(msgBuf[..at]) + stream(n) + old(msgBuf[at + msgSz..])
      ensures !pktgenHdr ==> msgBuf[..] == old(msgBuf[..])
    {
      assert stream(n) == Payload(pktgenHdr, f + n, clock(f + n), msgSz);
      if !pktgenHdr {
        assert msgBuf[..] == msgBuf[..at] + msgBuf[at..at + msgSz] + msgBuf[at + msgSz..];
      }
      FillBuf(msgBuf, at, msgSz);
    }

    /** One `sendto` per packet; answers[k] is what the k-th call returns. */
    method FloodWithSendto(count: nat, msgSz: nat, answers: seq<int>) returns (res: int)
      requires Valid() && count <= |answers|
      modifies this
      ensures var k := Succeeding(answers, count);
        && wire == old(wire) + Sent(Fills(pktgenHdr, clock, old(readings), msgSz), 0, k)
        && Valid() && FilledFrom(old(readings), if k < count then k + 1 else count)
        && res == (if k < count then answers[k] else count)
        && bytes == (if k < count then old(bytes) else Sum(answers[..count], 1))
    {
      ghost var f := readings;
      ghost var stream := Fills(pktgenHdr, clock, f, msgSz);
      var msgBuf := ZeroedBuffer(msgSz);
      var total := 0;
      for cnt := 0 to count
        invariant Succeeding(answers, cnt) == cnt
        invariant wire == old(wire) + Sent(stream, 0, cnt)
        invariant Valid() && FilledFrom(f, cnt) && bytes == old(bytes)
        invariant total == Sum(answers[..cnt], 1)
        invariant !pktgenHdr ==> msgBuf[..] == Zeros(msgSz)
      {
        FillMessage(msgBuf, 0, msgSz, f, cnt, stream);
        assert msgBuf[..] == stream(cnt);
        res := answers[cnt];
        if res < 0 {
          FirstFailure(answers, cnt, count);
          return;
        }
        wire := wire + [msgBuf[..]];
        SentNext(stream, 0, cnt);
        Regroup(old(wire), Sent(stream, 0, cnt), [stream(cnt)]);
        SumNext(answers, 1, cnt);
        total := total + res;
      }
      bytes := total;
      res := count;
    }

    /** Fills every slot of the batch buffer; the counter moves by the whole batch. */
    method FillBatch(msgBuf: array<byte>, batch: nat, msgSz: nat, ghost f: nat, ghost n: nat, ghost stream: Stream)
      requires msgBuf.Length == batch * msgSz
      requires Valid() && FilledFrom(f, n) && stream == Fills(pktgenHdr, clock, f, msgSz)
      requires !pktgenHdr ==> msgBuf[..] == Zeros(batch * msgSz)
      modifies this`sequence, this`readings, msgBuf
      ensures Valid() && FilledFrom(f, n + batch)
      ensures HoldsBatch(msgBuf[..], msgSz, Sent(stream, n, batch))
      ensures !pktgenHdr ==> msgBuf[..] == Zeros(batch * msgSz)
    {
      for pkt := 0 to batch
        invariant Valid() && FilledFrom(f, n + pkt)
        invariant HoldsBatch(msgBuf[..], msgSz, Sent(stream, n, pkt))
        invariant !pktgenHdr ==> msgBuf[..] == Zeros(batch * msgSz)
      {
        SlotsApart(pkt, batch, msgSz);
        ghost var before := msgBuf[..];
        var at := pkt * msgSz;
        FillMessage(msgBuf, at, msgSz, f, n + pkt, stream);
        NextSlot(before, msgBuf[..], msgSz, Sent(stream, n, pkt), stream(n + pkt), at);
        SentNext(stream, n, pkt);
      }
    }

    /** The kernel takes the first n messages of the batch. */
    method Accept(msgBuf: array<byte>, msgSz: nat, n: nat, ghost messages: seq<seq<byte>>)
      requires n <= |messages| && HoldsBatch(msgBuf[..], msgSz, messages)
      modifies this`wire
      ensures wire == old(wire) + messages[..n]
    {
      for p := 0 to n
        invariant wire == old(wire) + messages[..p]
      {
        assert SlotHolds(msgBuf[..], msgSz, p, messages[p]);
        wire := wire + [msgBuf[p * msgSz..p * msgSz + msgSz]];
        assert messages[..p + 1] == messages[..p] + [messages[p]];
      }
    }

    /** Fills the batch and hands messages of it to the kernel, which takes `answer` of them. */
    method SendBatch(msgBuf: array<byte>, batch: nat, msgSz: nat, answer: int,
                     ghost f: nat, ghost n: nat, ghost stream: Stream)
      requires msgBuf.Length == batch * msgSz && answer <= batch
      requires Valid() && FilledFrom(f, n) && stream == Fills(pktgenHdr, clock, f, msgSz)
      requires !pktgenHdr ==> msgBuf[..] == Zeros(batch * msgSz)
      modifies this`sequence, this`readings, this`wire, msgBuf
      ensures Valid() && FilledFrom(f, n + batch)
      ensures !pktgenHdr ==> msgBuf[..] == Zeros(batch * msgSz)
      ensures answer < 0 ==> wire == old(wire)
      ensures answer >= 0 ==> wire == old(wire) + Sent(stream, n, answer)
    {
      FillBatch(msgBuf, batch, msgSz, f, n, stream);
      if answer >= 0 {
        Accept(msgBuf, msgSz, answer, Sent(stream, n, batch));
        SentSplit(stream, n, answer, batch - answer);
        assert Sent(stream, n, batch)[..answer] == Sent(stream, n, answer);
      }
    }

    /** The flood loop over full batches. */
    method SendFullBatches(msgBuf: array<byte>, batches: nat, batch: nat, msgSz: nat, answers: seq<int>,
                           ghost f: nat, ghost stream: Stream)
      returns (res: int, total: int)
      requires msgBuf.Length == batch * msgSz && Answered(batches, 0, batch, answers)
      requires Valid() && FilledFrom(f, 0) && stream == Fills(pktgenHdr, clock, f, msgSz)
      requires !pktgenHdr ==> msgBuf[..] == Zeros(batch * msgSz)
      modifies this`sequence, this`readings, this`wire, msgBuf
      ensures var k := Succeeding(answers, batches);
        && Valid() && FilledFrom(f, Times(if k < batches then k + 1 else k, batch))
        && wire == old(wire) + BatchesSent(stream, batch, answers[..k])
        && (if k < batches then res == answers[k] else res >= 0)
        && total == Sum(answers[..k], msgSz)
      ensures !pktgenHdr ==> msgBuf[..] == Zeros(batch * msgSz)
    {
      res, total := 0, 0;
      for cnt := 0 to batches
        invariant Succeeding(answers, cnt) == cnt && res >= 0
        invariant Valid() && FilledFrom(f, Times(cnt, batch))
        invariant !pktgenHdr ==> msgBuf[..] == Zeros(batch * msgSz)
        invariant wire == old(wire) + BatchesSent(stream, batch, answers[..cnt])
        invariant total == Sum(answers[..cnt], msgSz)
      {
        res := answers[cnt];
        SendBatch(msgBuf, batch, msgSz, res, f, Times(cnt, batch), stream);
        if res < 0 {
          FirstFailure(answers, cnt, batches);
          return;
        }
        Regroup(old(wire), BatchesSent(stream, batch, answers[..cnt]), Sent(stream, Times(cnt, batch), res));
        BatchesNext(stream, batch, answers, cnt);
        SumNext(answers, msgSz, cnt);
        total := total + res * msgSz;
      }
    }

    /** The remainder: it fills, and numbers, a whole batch, and offers `last` messages of it. */
    method SendRemainder(msgBuf: array<byte>, batch: nat, last: nat, msgSz: nat, answer: int, count: nat,
                         ghost f: nat, ghost n: nat, ghost stream: Stream)
      returns (res: int)
      requires msgBuf.Length == batch * msgSz && answer <= last <= batch
      requires Valid() && FilledFrom(f, n) && stream == Fills(pktgenHdr, clock, f, msgSz)
      requires !pktgenHdr ==> msgBuf[..] == Zeros(batch * msgSz)
      modifies this`sequence, this`readings, this`wire, msgBuf
      ensures Valid() && FilledFrom(f, if last == 0 then n else n + batch)
      ensures last == 0 || answer < 0 ==> wire == old(wire)
      ensures last != 0 && answer >= 0 ==> wire == old(wire) + Sent(stream, n, answer)
      ensures res == if last != 0 && answer < 0 then answer else count
    {
      res := count;
      if last != 0 {
        SendBatch(msgBuf, batch, msgSz, answer, f, n, stream);
        if answer < 0 {
          res := answer;
        }
      }
    }

    /**
     The flood loop and the remainder.  The bytes of the remainder batch are never
     recorded, and it fills, and numbers, a whole batch.
     */
    method SendBatches(batches: nat, last: nat, batch: nat, msgSz: nat, answers: seq<int>, count: nat)
      returns (res: int, ghost calls: nat, ghost fills: nat)
      requires Valid() && last <= batch && Answered(batches, last, batch, answers)
      modifies this
      ensures (calls, fills) == Calls(batches, last, answers)
      ensures Valid() && FilledFrom(old(readings), Times(fills, batch))
      ensures wire == old(wire) +
             BatchesSent(Fills(pktgenHdr, clock, old(readings), msgSz), batch, answers[..calls])
      ensures res == (if calls == fills then count else answers[calls])
      ensures bytes == if Succeeding(answers, batches) < batches then old(bytes) else Sum(answers[..batches], msgSz)
    {
      ghost var f := readings;
      ghost var stream := Fills(pktgenHdr, clock, f, msgSz);
      calls := Succeeding(answers, batches);
      fills := if calls < batches then calls + 1 else calls;
      var msgBuf := ZeroedBuffer(batch * msgSz);
      var total;
      res, total := SendFullBatches(msgBuf, batches, batch, msgSz, answers, f, stream);
      if res < 0 {
        return;
      }
      bytes := total;
      if last == 0 {
        res := count;
        return;
      }
      var answer := answers[batches];
      fills := batches + 1;
      res := SendRemainder(msgBuf, batch, last, msgSz, answer, count, f, Times(batches, batch), stream);
      if answer >= 0 {
        Regroup(old(wire), BatchesSent(stream, batch, answers[..calls]), Sent(stream, Times(batches, batch), answer));
        BatchesNext(stream, batch, answers, batches);
        calls := batches + 1;
      }
    }

    /** One `sendmmsg` per batch; answers[k] is how many messages the k-th call accepts. */
    method FloodWithSendMmsg(count: nat, batch: nat, msgSz: nat, answers: seq<int>) returns (res: int)
      requires Valid() && batch >= 1 && Answered(count / batch, count % batch, batch, answers)
      modifies this
      ensures var (calls, fills) := Calls(count / batch, count % batch, answers);
        && Valid() && FilledFrom(old(readings), Times(fills, batch))
        && wire == old(wire) +
             BatchesSent(Fills(pktgenHdr, clock, old(readings), msgSz), batch, answers[..calls])
        && res == (if calls == fills then count else answers[calls])
      ensures bytes == if Succeeding(answers, count / batch) < count / batch then old(bytes)
                       else Sum(answers[..count / batch], msgSz)
      ensures AllAccepted(count / batch, count % batch, batch, answers) ==>
        && res == count && bytes == (count - count % batch) * msgSz
        && wire == old(wire) + Sent(Fills(pktgenHdr, clock, old(readings), msgSz), 0, count)
        && (pktgenHdr ==> sequence == (old(sequence) + batch * CeilDiv(count, batch)) % TWO32)
    {
      var batches, last := Batches(count, batch);
      if AllAccepted(batches, last, batch, answers) {
        AcceptedFlood(Fills(pktgenHdr, clock, readings, msgSz), count, batch, msgSz, answers);
        CounterAfter(readings, CeilDiv(count, batch), batch);
      }
      ghost var calls, fills;
      res, calls, fills := SendBatches(batches, last, batch, msgSz, answers, count);
    }
  }
}
