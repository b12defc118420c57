/**
 How the io-vectors of the batched calls are laid out over message buffers, and what
 that layout means to the checker.
 */
module Layout {
  import opened Wire
  import opened Scatter
  import opened Sink

  /** Entry i of message pkt. */
  function Index(pkt: nat, elems: nat, i: nat): nat {
    pkt * elems + i
  }

  lemma IndexBound(pkt: nat, elems: nat, i: nat, batch: nat)
    requires pkt < batch && i < elems
    ensures 0 <= pkt * elems && Index(pkt, elems, i) < pkt * elems + elems <= batch * elems
  {
    var rest: nat := batch - pkt - 1;
    assert batch * elems == pkt * elems + elems + rest * elems;
  }

  /** Entries and (message, segment) pairs correspond one to one. */
  lemma IndexIsBijection(elems: nat, batch: nat, k: nat)
    requires elems >= 1 && k < batch * elems
    ensures k / elems < batch && k % elems < elems && Index(k / elems, elems, k % elems) == k
    ensures forall pkt: nat, i: nat :: i < elems && Index(pkt, elems, i) == k ==> pkt == k / elems && i == k % elems
  {
    var q := k / elems;
    assert k == q * elems + k % elems;
    if q >= batch {
      IndexBelow(batch, q, elems);
    }
    forall pkt: nat, i: nat | i < elems && Index(pkt, elems, i) == k
      ensures pkt == q && i == k % elems
    {
      SameIndex(pkt, q, elems, i, k % elems);
    }
  }

  lemma IndexBelow(p: nat, q: nat, elems: nat)
    requires p <= q
    ensures p * elems <= q * elems
  {
    var gap: nat := q - p;
    assert q * elems == p * elems + gap * elems;
  }

  lemma SameIndex(p: nat, q: nat, elems: nat, i: nat, j: nat)
    requires i < elems && j < elems && Index(p, elems, i) == Index(q, elems, j)
    ensures p == q && i == j
  {
    if p < q {
      IndexBound(p, elems, i, q);
    } else if q < p {
      IndexBound(q, elems, j, p);
    }
  }

  /** Segment i of message pkt on the receive side: each message has a block of its own. */
  function ReceiveEntry(size: nat, pkt: nat, i: nat): Iovec {
    Iovec(pkt, i * size, size)
  }

  /** Segment i of message pkt on the send side: the messages share one block. */
  function SendEntry(elems: nat, msgSz: nat, pkt: nat, i: nat): Iovec
    requires elems >= 1
  {
    Iovec(0, pkt * msgSz + i * (msgSz / elems), msgSz / elems)
  }

  /** The vector holds, for each message and segment, the entry the layout prescribes. */
  ghost predicate LaidOut(iov: seq<Iovec>, batch: nat, elems: nat, entry: (nat, nat) -> Iovec) {
    forall pkt: nat, i: nat :: pkt < batch && i < elems ==>
      Index(pkt, elems, i) < |iov| && iov[Index(pkt, elems, i)] == entry(pkt, i)
  }

  /** One more message's segments, stored behind those of the messages before it. */
  lemma NextMessage(iov: seq<Iovec>, iov': seq<Iovec>, pkt: nat, elems: nat, entry: (nat, nat) -> Iovec)
    requires LaidOut(iov, pkt, elems, entry) && |iov'| == |iov| && pkt * elems + elems <= |iov|
    requires forall k :: 0 <= k < pkt * elems ==> iov'[k] == iov[k]
    requires forall i: nat :: i < elems ==> iov'[pkt * elems + i] == entry(pkt, i)
    ensures LaidOut(iov', pkt + 1, elems, entry)
  {
    forall p: nat, i: nat | p < pkt + 1 && i < elems
      ensures Index(p, elems, i) < |iov'| && iov'[Index(p, elems, i)] == entry(p, i)
    {
      if p < pkt {
        IndexBound(p, elems, i, pkt);
        assert iov[Index(p, elems, i)] == entry(p, i);
      }
    }
  }

  function ReceiveLayout(size: nat): (nat, nat) -> Iovec {
    (pkt: nat, i: nat) => ReceiveEntry(size, pkt, i)
  }

  function SendLayout(elems: nat, msgSz: nat): (nat, nat) -> Iovec
    requires elems >= 1
  {
    (pkt: nat, i: nat) => SendEntry(elems, msgSz, pkt, i)
  }

  /** The inner loop of both set-ups: equal segments from `base` on. */
  method StoreSegments(iov: array<Iovec>, first: nat, elems: nat, block: nat, base: nat, size: nat)
    requires first + elems <= iov.Length
    modifies iov
    ensures forall k :: 0 <= k < first ==> iov[k] == old(iov[k])
    ensures forall i: nat :: i < elems ==> iov[first + i] == Iovec(block, base + i * size, size)
  {
    for i := 0 to elems
      invariant forall k :: 0 <= k < first ==> iov[k] == old(iov[k])
      invariant forall j: nat :: j < i ==> iov[first + j] == Iovec(block, base + j * size, size)
    {
      iov[first + i] := Iovec(block, base + i * size, size);
    }
  }

  /** The outer loop: the segments of one message, behind those of the messages before it. */
  method StoreMessage(iov: array<Iovec>, pkt: nat, elems: nat, block: nat, base: nat, size: nat,
                      ghost batch: nat, ghost entry: (nat, nat) -> Iovec)
    requires pkt < batch && elems >= 1 && iov.Length == batch * elems && LaidOut(iov[..], pkt, elems, entry)
    requires forall i: nat :: i < elems ==> entry(pkt, i) == Iovec(block, base + i * size, size)
    modifies iov
    ensures LaidOut(iov[..], pkt + 1, elems, entry)
  {
    ghost var before := iov[..];
    IndexBound(pkt, elems, 0, batch);
    StoreSegments(iov, pkt * elems, elems, block, base, size);
    NextMessage(before, iov[..], pkt, elems, entry);
  }

  /** The set-up of `sink_with_recvMmsg`. */
  method SetupReceive(batch: nat, elems: nat, bufSz: nat) returns (iov: array<Iovec>)
    requires elems >= 1
    ensures iov.Length == batch * elems
    ensures LaidOut(iov[..], batch, elems, ReceiveLayout(bufSz / elems))
  {
    iov := new Iovec[batch * elems](_ => Iovec(0, 0, 0));
    var size := bufSz / elems;
    for pkt := 0 to batch
      invariant LaidOut(iov[..], pkt, elems, ReceiveLayout(size))
    {
      StoreMessage(iov, pkt, elems, pkt, 0, size, batch, ReceiveLayout(size));
    }
  }

  /** The set-up of `flood_with_sendMmsg`. */
  method SetupSend(batch: nat, elems: nat, msgSz: nat) returns (iov: array<Iovec>)
    requires elems >= 1
    ensures iov.Length == batch * elems
    ensures LaidOut(iov[..], batch, elems, SendLayout(elems, msgSz))
  {
    iov := new Iovec[elems * batch](_ => Iovec(0, 0, 0));
    for pkt := 0 to batch
      invariant LaidOut(iov[..], pkt, elems, SendLayout(elems, msgSz))
    {
      var base := Offset(pkt, msgSz);
      var incr := msgSz / elems;
      StoreMessage(iov, pkt, elems, 0, base, incr, batch, SendLayout(elems, msgSz));
    }
  }

  /** Byte ranges that do not meet. */
  predicate Disjoint(a: Iovec, b: Iovec) {
    a.block != b.block || a.base + a.len <= b.base || b.base + b.len <= a.base
  }

  /** Segments of one message abut, in order, within its buffer. */
  lemma SegmentsAbut(elems: nat, bufSz: nat, pkt: nat, i: nat)
    requires i < elems
    ensures var e := ReceiveEntry(bufSz / elems, pkt, i); var f := SendEntry(elems, bufSz, pkt, i);
      && e.base + e.len <= bufSz && pkt * bufSz <= f.base && f.base + f.len <= (pkt + 1) * bufSz
      && (i == 0 ==> e.base == 0 && f.base == pkt * bufSz)
      && ReceiveEntry(bufSz / elems, pkt, i + 1).base == e.base + e.len
      && SendEntry(elems, bufSz, pkt, i + 1).base == f.base + f.len
  {
    var size := bufSz / elems;
    SliceEnds(i, elems, bufSz);
    Next(i, size);
    Next(pkt, bufSz);
  }

  lemma Next(i: nat, size: nat)
    ensures (i + 1) * size == i * size + size && 0 <= i * size
  {
  }

  lemma SlicesDisjoint(i: nat, j: nat, size: nat)
    requires i != j
    ensures i * size + size <= j * size || j * size + size <= i * size
  {
    if i < j {
      IndexBelow(i + 1, j, size);
      Next(i, size);
    } else {
      IndexBelow(j + 1, i, size);
      Next(j, size);
    }
  }

  lemma SliceEnds(i: nat, elems: nat, msgSz: nat)
    requires i < elems
    ensures 0 <= i * (msgSz / elems) && i * (msgSz / elems) + msgSz / elems <= msgSz
  {
    var incr := msgSz / elems;
    IndexBelow(i + 1, elems, incr);
    Next(i, incr);
    assert msgSz == incr * elems + msgSz % elems;
  }

  /** No two entries share a byte on the receive side... */
  lemma ReceiveEntriesDisjoint(elems: nat, bufSz: nat, p: nat, i: nat, q: nat, j: nat)
    requires i < elems && j < elems && (p != q || i != j)
    ensures Disjoint(ReceiveEntry(bufSz / elems, p, i), ReceiveEntry(bufSz / elems, q, j))
  {
    if p == q {
      SlicesDisjoint(i, j, bufSz / elems);
    }
  }

  /** ...nor on the send side, where all messages live in one block. */
  lemma SendEntriesDisjoint(elems: nat, msgSz: nat, p: nat, i: nat, q: nat, j: nat)
    requires i < elems && j < elems && (p != q || i != j)
    ensures Disjoint(SendEntry(elems, msgSz, p, i), SendEntry(elems, msgSz, q, j))
  {
    if p == q {
      SlicesDisjoint(i, j, msgSz / elems);
    } else {
      SliceEnds(i, elems, msgSz);
      SliceEnds(j, elems, msgSz);
      SlicesDisjoint(p, q, msgSz);
    }
  }

  /** The segments hold a whole header each exactly when the buffer has sixteen bytes for each. */
  lemma SegmentsHoldHeader(elems: nat, bufSz: nat)
    requires elems >= 1
    ensures bufSz / elems >= HDR <==> bufSz >= HDR * elems
  {
    var size := bufSz / elems;
    assert bufSz == size * elems + bufSz % elems;
    if size >= HDR {
      IndexBelow(HDR, size, elems);
    } else {
      IndexBelow(size + 1, HDR, elems);
      Next(size, elems);
    }
  }

  lemma WholeSegments(bufSz: nat, elems: nat)
    requires elems >= 1
    ensures elems * (bufSz / elems) <= bufSz
    ensures elems * (bufSz / elems) == bufSz <==> bufSz % elems == 0
  {
    assert bufSz == elems * (bufSz / elems) + bufSz % elems;
  }

  /** n segments of equal size, one behind the other. */
  function EqualSegments(block: nat, base: nat, size: nat, n: nat): (iov: seq<Iovec>)
    ensures |iov| == n
  {
    seq(n, i requires 0 <= i < n => Iovec(block, base + Offset(i, size), size))
  }

  /** i segments of this size further on. */
  function Offset(i: nat, size: nat): nat {
    Next(i, size);
    i * size
  }

  lemma {:induction false} EqualTotal(iov: seq<Iovec>, size: nat)
    requires forall k :: 0 <= k < |iov| ==> iov[k].len == size
    ensures Total(iov) == |iov| * size
  {
    if iov != [] {
      EqualTotal(iov[..|iov| - 1], size);
      Next(|iov| - 1, size);
    }
  }

  /** Where the i-th of equal segments starts. */
  lemma EqualStarts(iov: seq<Iovec>, size: nat, i: nat)
    requires forall k :: 0 <= k < |iov| ==> iov[k].len == size
    requires i <= |iov|
    ensures Start(iov, i) == i * size
  {
    EqualTotal(iov[..i], size);
  }

  /** Equal segments are one stretch of memory. */
  lemma EqualSegmentsAbut(mem: Memory, block: nat, base: nat, size: nat, n: nat)
    requires n >= 1 && block < |mem| && base + n * size <= |mem[block]|
    ensures var v := EqualSegments(block, base, size, n);
      && Abutting(v) && InMemory(mem, v) && Total(v) == n * size
      && Flat(mem, v) == Load(mem, block, base, n * size)
  {
    var v := EqualSegments(block, base, size, n);
    EqualTotal(v, size);
    EqualSegmentsInside(mem, block, base, size, n);
    AbuttingFlat(mem, v);
  }

  lemma EqualSegmentsInside(mem: Memory, block: nat, base: nat, size: nat, n: nat)
    requires block < |mem| && base + n * size <= |mem[block]|
    ensures Abutting(EqualSegments(block, base, size, n)) && InMemory(mem, EqualSegments(block, base, size, n))
  {
    forall i: nat | i < n
      ensures base + Offset(i, size) + size <= base + n * size
      ensures i > 0 ==> Offset(i, size) == Offset(i - 1, size) + size
    {
      EqualBase(base, size, n, i);
    }
  }

  lemma EqualBase(base: nat, size: nat, n: nat, i: nat)
    requires i < n
    ensures base + Offset(i, size) + size <= base + n * size
    ensures i > 0 ==> Offset(i, size) == Offset(i - 1, size) + size
  {
    IndexBelow(i + 1, n, size);
    Next(i, size);
    if i > 0 {
      Next(i - 1, size);
    }
  }

  /** The slice of the vector that belongs to a message. */
  function SliceOf(iov: seq<Iovec>, elems: nat, pkt: nat): seq<Iovec>
    requires Offset(pkt, elems) + elems <= |iov|
  {
    iov[Offset(pkt, elems)..Offset(pkt, elems) + elems]
  }

  lemma SliceIsEqual(iov: seq<Iovec>, batch: nat, elems: nat, entry: (nat, nat) -> Iovec, pkt: nat,
                     block: nat, base: nat, size: nat)
    requires elems >= 1 && pkt < batch && |iov| == batch * elems && LaidOut(iov, batch, elems, entry)
    requires forall i: nat :: i < elems ==> entry(pkt, i) == Iovec(block, base + i * size, size)
    ensures Offset(pkt, elems) + elems <= |iov|
    ensures SliceOf(iov, elems, pkt) == EqualSegments(block, base, size, elems)
  {
    IndexBound(pkt, elems, 0, batch);
    var v := SliceOf(iov, elems, pkt);
    forall i: nat | i < elems
      ensures v[i] == EqualSegments(block, base, size, elems)[i]
    {
      assert iov[Index(pkt, elems, i)] == entry(pkt, i);
    }
  }

  /** One buffer of this size for each message. */
  ghost predicate Buffers(mem: Memory, batch: nat, bufSz: nat) {
    |mem| == batch && forall pkt :: 0 <= pkt < batch ==> |mem[pkt]| == bufSz
  }

  /** What the receive set-up stores for a message is the start of its buffer, up to whole segments. */
  lemma ReceiveSlice(mem: Memory, iov: seq<Iovec>, batch: nat, elems: nat, bufSz: nat, pkt: nat)
    requires elems >= 1 && pkt < batch && Buffers(mem, batch, bufSz)
    requires |iov| == batch * elems && LaidOut(iov, batch, elems, ReceiveLayout(bufSz / elems))
    ensures Offset(pkt, elems) + elems <= |iov| && elems * (bufSz / elems) <= bufSz
    ensures var v := SliceOf(iov, elems, pkt);
      && v != [] && Abutting(v) && InMemory(mem, v) && Total(v) == elems * (bufSz / elems)
      && Flat(mem, v) == mem[pkt][..elems * (bufSz / elems)]
  {
    var size := bufSz / elems;
    WholeSegments(bufSz, elems);
    SliceIsEqual(iov, batch, elems, ReceiveLayout(size), pkt, pkt, 0, size);
    EqualSegmentsAbut(mem, pkt, 0, size, elems);
  }

  /**
   What the send set-up stores for a message: the kernel gathers the whole message if and only if
   it is a multiple of the number of segments; one segment always gives all of it.
   */
  lemma SendSlice(mem: Memory, iov: seq<Iovec>, batch: nat, elems: nat, msgSz: nat, pkt: nat)
    requires elems >= 1 && pkt < batch && |mem| == 1 && |mem[0]| == batch * msgSz
    requires |iov| == batch * elems && LaidOut(iov, batch, elems, SendLayout(elems, msgSz))
    ensures Offset(pkt, elems) + elems <= |iov| && Offset(pkt, msgSz) + msgSz <= |mem[0]|
    ensures var v := SliceOf(iov, elems, pkt);
      && Abutting(v) && InMemory(mem, v)
      && Flat(mem, v) <= Load(mem, 0, Offset(pkt, msgSz), msgSz)
      && (Flat(mem, v) == Load(mem, 0, Offset(pkt, msgSz), msgSz) <==> msgSz % elems == 0)
  {
    IndexBelow(pkt + 1, batch, msgSz);
    Next(pkt, msgSz);
    SliceIsEqual(iov, batch, elems, SendLayout(elems, msgSz), pkt, 0, pkt * msgSz, msgSz / elems);
    GatheredSegments(mem, 0, Offset(pkt, msgSz), elems, msgSz);
  }

  /** What equal segments gather of a stretch of memory. */
  lemma GatheredSegments(mem: Memory, block: nat, base: nat, elems: nat, msgSz: nat)
    requires elems >= 1 && block < |mem| && base + msgSz <= |mem[block]|
    ensures var v := EqualSegments(block, base, msgSz / elems, elems);
      && Abutting(v) && InMemory(mem, v)
      && Flat(mem, v) <= Load(mem, block, base, msgSz)
      && (Flat(mem, v) == Load(mem, block, base, msgSz) <==> msgSz % elems == 0)
  {
    WholeSegments(msgSz, elems);
    EqualSegmentsAbut(mem, block, base, msgSz / elems, elems);
  }

  // ------------------------------------------------------------------
  // The walk over abutting segments

  /** In segments that abut, every header is copied from where it lies, however narrow they are. */
  lemma AbuttingIsSafe(check: int, iov: seq<Iovec>, received: nat)
    requires iov != [] && Abutting(iov) && received <= Total(iov)
    ensures SafeToCheck(check, iov, received)
  {
    forall k: nat | HDR * k + HDR <= received
      ensures InPlace(iov, k)
    {
      var i, offset, curLen, len := WalkReaches(iov, received, k);
      AbuttingCopies(iov, received, i, offset, curLen, len, k);
      CursorIsInPlace(iov, received, i, offset, curLen, len, k);
    }
  }

  lemma AbuttingCopies(iov: seq<Iovec>, received: nat, i: nat, offset: nat, curLen: nat, len: nat, k: nat)
    requires Abutting(iov) && Cursor(iov, received, i, offset, curLen, len, k) && curLen - offset + len >= HDR
    ensures BytesInPlace(iov, i, offset, curLen, k)
  {
    AbuttingBase(iov, i);
    if i + 1 < |iov| {
      AbuttingBase(iov, i + 1);
      StartNext(iov, i);
    }
    forall j: nat | j < HDR
      ensures ByteInPlace(iov, i, offset, curLen, k, j)
    {
      AbuttingAddress(iov, HDR * k + j);
    }
  }

  // ------------------------------------------------------------------
  // The walk over other segments

  /** Header k ends in the segment the walk stands in or in the next one. */
  predicate HeaderFits(iov: seq<Iovec>, k: nat) {
    var i := SegmentOf(iov, k);
    i < |iov| && HDR * k + HDR <= Start(iov, if i + 2 <= |iov| then i + 2 else |iov|)
  }

  /** No header that is examined needs more than two segments. */
  ghost predicate Fits(check: int, iov: seq<Iovec>, received: nat) {
    check != 0 ==> forall k: nat :: HDR * k + HDR <= received && (k == 0 || check >= 2) ==> HeaderFits(iov, k)
  }

  /** Every segment but the first and the last can hold a whole header. */
  predicate InteriorHoldsHeader(iov: seq<Iovec>) {
    forall i :: 0 < i < |iov| - 1 ==> iov[i].len >= HDR
  }

  /** The walk stands in the segment where header k starts, or at the very end. */
  predicate KeepsUp(iov: seq<Iovec>, k: nat) {
    var i := SegmentOf(iov, k);
    && i <= |iov| && Start(iov, i) <= HDR * k
    && (i < |iov| ==> HDR * k <= Start(iov, i + 1))
  }

  lemma WholeStart(iov: seq<Iovec>)
    ensures Start(iov, |iov|) == Total(iov)
  {
    assert iov[..|iov|] == iov;
  }

  lemma KeepingUpFits(iov: seq<Iovec>, k: nat)
    requires iov != [] && InteriorHoldsHeader(iov) && HDR * k + HDR <= Total(iov)
    requires KeepsUp(iov, k)
    ensures HeaderFits(iov, k)
  {
    var i := SegmentOf(iov, k);
    WholeStart(iov);
    assert i < |iov|;
    if i + 2 < |iov| {
      StartNext(iov, i + 1);
      assert iov[i + 1].len >= HDR;
    }
  }

  lemma FittingKeepsUp(iov: seq<Iovec>, k: nat)
    requires k >= 1 && KeepsUp(iov, k - 1) && HeaderFits(iov, k - 1)
    ensures KeepsUp(iov, k)
  {
  }

  lemma {:induction false} WalkKeepsUp(iov: seq<Iovec>, k: nat)
    requires iov != [] && InteriorHoldsHeader(iov) && HDR * k <= Total(iov)
    ensures KeepsUp(iov, k)
  {
    if k > 0 {
      WalkKeepsUp(iov, k - 1);
      KeepingUpFits(iov, k - 1);
      FittingKeepsUp(iov, k);
    }
  }

  lemma {:induction false} AllFitKeepsUp(iov: seq<Iovec>, k: nat)
    requires iov != [] && forall j: nat :: j < k ==> HeaderFits(iov, j)
    ensures KeepsUp(iov, k)
  {
    if k > 0 {
      AllFitKeepsUp(iov, k - 1);
      assert HeaderFits(iov, k - 1);
      FittingKeepsUp(iov, k);
    }
  }

  /** A header in two segments is copied from where it lies, wherever these are. */
  lemma FittingInPlace(iov: seq<Iovec>, k: nat)
    requires KeepsUp(iov, k) && HeaderFits(iov, k) && HDR * k + HDR <= Total(iov)
    ensures InPlace(iov, k)
  {
    var i := SegmentOf(iov, k);
    var offset := HDR * k - Start(iov, i);
    StartNext(iov, i);
    if i + 1 < |iov| {
      StartNext(iov, i + 1);
    }
    forall j: nat | j < HDR
      ensures ByteInPlace(iov, i, offset, iov[i].len, k, j)
    {
      FittingByte(iov, k, i, offset, j);
    }
  }

  lemma FittingByte(iov: seq<Iovec>, k: nat, i: nat, offset: nat, j: nat)
    requires i < |iov| && offset <= iov[i].len && Start(iov, i) + offset == HDR * k && j < HDR
    requires offset + j < iov[i].len || (i + 1 < |iov| && offset + j < iov[i].len + iov[i + 1].len)
    ensures HDR * k + j < Total(iov) && ByteInPlace(iov, i, offset, iov[i].len, k, j)
  {
    if offset + j < iov[i].len {
      AddressIn(iov, i, offset + j);
    } else {
      StartNext(iov, i);
      AddressIn(iov, i + 1, offset + j - iov[i].len);
    }
  }

  /** Sixteen bytes in each segment between the first and the last are enough for any packet. */
  lemma WideInteriorIsSafe(check: int, iov: seq<Iovec>, received: nat)
    requires iov != [] && InteriorHoldsHeader(iov) && received <= Total(iov)
    ensures Fits(check, iov, received) && SafeToCheck(check, iov, received)
  {
    forall k: nat | HDR * k + HDR <= received
      ensures HeaderFits(iov, k) && InPlace(iov, k)
    {
      WalkKeepsUp(iov, k);
      KeepingUpFits(iov, k);
      FittingInPlace(iov, k);
    }
  }

  /** In detached segments, a header that needs a third one is copied from outside of all of them. */
  lemma MisfitCopiesOutside(iov: seq<Iovec>, k: nat) returns (i: nat, offset: nat, j: nat)
    requires Detached(iov) && KeepsUp(iov, k) && !HeaderFits(iov, k) && HDR * k + HDR <= Total(iov)
    ensures i == SegmentOf(iov, k) < |iov| && Start(iov, i) + offset == HDR * k && j < HDR
    ensures forall n :: 0 <= n < |iov| ==> !Within(iov[n], CopiedFrom(iov, i, offset, iov[i].len, j))
    ensures !InPlace(iov, k)
  {
    i, offset := MisfitPlace(iov, k);
    j := iov[i].len - offset + iov[i + 1].len;
    assert CopiedFrom(iov, i, offset, iov[i].len, j) == BehindEnd(iov[i + 1]);
    CopiedOutside(iov, k, i, offset, j);
  }

  /** Where the walk stands before a header that needs a third segment. */
  lemma MisfitPlace(iov: seq<Iovec>, k: nat) returns (i: nat, offset: nat)
    requires KeepsUp(iov, k) && !HeaderFits(iov, k) && HDR * k + HDR <= Total(iov)
    ensures i == SegmentOf(iov, k) && i + 1 < |iov| && Start(iov, i) + offset == HDR * k && offset <= iov[i].len
    ensures iov[i].len - offset + iov[i + 1].len < HDR
  {
    i := SegmentOf(iov, k);
    WholeStart(iov);
    offset := HDR * k - Start(iov, i);
    StartNext(iov, i);
    StartNext(iov, i + 1);
  }

  lemma CopiedOutside(iov: seq<Iovec>, k: nat, i: nat, offset: nat, j: nat)
    requires i < |iov| && HDR * k + HDR <= Total(iov) && j < HDR
    requires forall n :: 0 <= n < |iov| ==> !Within(iov[n], CopiedFrom(iov, i, offset, iov[i].len, j))
    ensures !BytesInPlace(iov, i, offset, iov[i].len, k)
  {
    var n := AddressSomewhere(iov, HDR * k + j);
    assert !ByteInPlace(iov, i, offset, iov[i].len, k, j);
  }

  /** For detached segments it is exact that no header may need more than two of them. */
  lemma DetachedExact(check: int, iov: seq<Iovec>, received: nat)
    requires iov != [] && Detached(iov) && received <= Total(iov)
    ensures SafeToCheck(check, iov, received) <==> Fits(check, iov, received)
  {
    if check != 0 && Fits(check, iov, received) {
      forall k: nat | HDR * k + HDR <= received && (k == 0 || check >= 2)
        ensures InPlace(iov, k)
      {
        assert forall j: nat :: j < k ==> HeaderFits(iov, j);
        AllFitKeepsUp(iov, k);
        FittingInPlace(iov, k);
      }
    }
    if check != 0 && SafeToCheck(check, iov, received) {
      forall k: nat | HDR * k + HDR <= received && (k == 0 || check >= 2)
        ensures HeaderFits(iov, k)
      {
        InPlaceFits(check, iov, received, k);
      }
    }
  }

  lemma {:induction false} InPlaceFits(check: int, iov: seq<Iovec>, received: nat, k: nat)
    requires iov != [] && Detached(iov) && received <= Total(iov) && check != 0 && SafeToCheck(check, iov, received)
    requires HDR * k + HDR <= received && (k == 0 || check >= 2)
    ensures HeaderFits(iov, k)
  {
    forall j: nat | j < k
      ensures HeaderFits(iov, j)
    {
      InPlaceFits(check, iov, received, j);
    }
    AllFitKeepsUp(iov, k);
    assert InPlace(iov, k);
    if !HeaderFits(iov, k) {
      var _, _, _ := MisfitCopiesOutside(iov, k);
    }
  }

  /** Below sixteen bytes, the walk enters the next equal segment with every header. */
  lemma {:induction false} NarrowWalk(iov: seq<Iovec>, size: nat, k: nat)
    requires size < HDR && k < |iov| && forall i :: 0 <= i < |iov| ==> iov[i].len == size
    ensures SegmentOf(iov, k) == k
  {
    if k > 0 {
      NarrowWalk(iov, size, k - 1);
      EqualStarts(iov, size, k);
      IndexBelow(size, HDR, k);
    }
  }

  /** How many headers narrow segments can bear: each one needs HDR - size more of the next segment. */
  function BearableHeaders(size: nat): nat
    requires size < HDR
  {
    size / (HDR - size)
  }

  lemma NarrowHeaderFits(iov: seq<Iovec>, size: nat, k: nat)
    requires size < HDR && forall i :: 0 <= i < |iov| ==> iov[i].len == size
    requires HDR * k + HDR <= |iov| * size
    ensures HeaderFits(iov, k) <==> k < BearableHeaders(size)
  {
    ManySegments(|iov|, size, k);
    NarrowWalk(iov, size, k);
    EqualStarts(iov, size, k + 2);
    ShareOfHeader(size, k);
    QuotientBound(k + 1, HDR - size, size);
  }

  lemma ManySegments(n: nat, size: nat, k: nat)
    requires size < HDR && HDR * k + HDR <= n * size
    ensures k + 2 <= n
  {
    IndexBelow(size, HDR - 1, n);
    assert n * size == size * n;
  }

  /** Header k ends within segment k + 1 exactly if k + 1 gaps fit into one segment. */
  lemma ShareOfHeader(size: nat, k: nat)
    requires size < HDR
    ensures HDR * k + HDR <= (k + 2) * size <==> (k + 1) * (HDR - size) <= size
  {
    Next(k + 1, size);
    var m := k + 1;
    assert HDR * m == m * size + m * (HDR - size);
  }

  lemma QuotientBound(m: nat, gap: nat, size: nat)
    requires gap >= 1
    ensures m * gap <= size <==> m <= size / gap
  {
    var q := size / gap;
    assert size == q * gap + size % gap;
    if m <= q {
      IndexBelow(m, q, gap);
    } else {
      IndexBelow(q + 1, m, gap);
      Next(q, gap);
    }
  }

  /**
   Detached segments of equal size suit the checker for every packet that fits them exactly if they
   have sixteen bytes, or are so few that no packet brings one header more than they can bear.
   */
  lemma DetachedEqualSegments(check: int, iov: seq<Iovec>, size: nat)
    requires check >= 2 && iov != [] && Detached(iov) && forall i :: 0 <= i < |iov| ==> iov[i].len == size
    ensures (forall received: nat :: received <= Total(iov) ==> SafeToCheck(check, iov, received)) <==>
      size >= HDR || |iov| * size < HDR * (BearableHeaders(size) + 1)
  {
    EqualTotal(iov, size);
    forall received: nat | received <= Total(iov)
      ensures SafeToCheck(check, iov, received) <==> Fits(check, iov, received)
    {
      DetachedExact(check, iov, received);
    }
    if size >= HDR {
      forall received: nat | received <= Total(iov)
        ensures SafeToCheck(check, iov, received)
      {
        WideInteriorIsSafe(check, iov, received);
      }
    } else {
      NarrowSegmentsFit(check, iov, size);
    }
  }

  lemma NarrowSegmentsFit(check: int, iov: seq<Iovec>, size: nat)
    requires check >= 2 && size < HDR && forall i :: 0 <= i < |iov| ==> iov[i].len == size
    ensures (forall received: nat :: received <= |iov| * size ==> Fits(check, iov, received)) <==>
      |iov| * size < HDR * (BearableHeaders(size) + 1)
  {
    var b, total := BearableHeaders(size), Offset(|iov|, size);
    if total >= HDR * (b + 1) {
      NarrowHeaderFits(iov, size, b);
      assert !Fits(check, iov, total);
    } else {
      forall received: nat | received <= total
        ensures Fits(check, iov, received)
      {
        forall k: nat | HDR * k + HDR <= received
          ensures HeaderFits(iov, k)
        {
          NarrowHeaderFits(iov, size, k);
        }
      }
    }
  }
}
