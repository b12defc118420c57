/**
 The payload check of the UDP sink (`__check_pkt`): a walk over a packet that
 is scattered over io-vector segments, specified by a check of the flat packet.
 */
module Sink {
  import opened Wire
  import opened Scatter

  // ------------------------------------------------------------------
  // Specification: the flat packet

  /** The k-th sixteen bytes of a packet. */
  function HeaderAt(data: seq<byte>, k: nat): (b: seq<byte>)
    requires HDR * k + HDR <= |data|
    ensures |b| == HDR
  {
    data[HDR * k..HDR * k + HDR]
  }

  /** The first n headers of a packet, in order. */
  ghost function Headers(data: seq<byte>, n: nat): (hs: seq<seq<byte>>)
    requires HDR * n <= |data|
    ensures |hs| == n && forall k :: 0 <= k < n ==> hs[k] == HeaderAt(data, k)
  {
    if n == 0 then [] else Headers(data, n - 1) + [HeaderAt(data, n - 1)]
  }

  /** How many of the headers 1 <= k < n differ from header 0. */
  function Differing(data: seq<byte>, n: nat): nat
    requires HDR * n <= |data|
  {
    if n <= 1 then 0
    else Differing(data, n - 1) + if HeaderAt(data, n - 1) != HeaderAt(data, 0) then 1 else 0
  }

  predicate SameTime(a: Header, b: Header) {
    a.sec == b.sec && a.usec == b.usec
  }

  /** Lexicographic order on (seconds, microseconds, sequence number). */
  predicate Precedes(a: Header, b: Header) {
    if a.sec != b.sec then a.sec < b.sec
    else if a.usec != b.usec then a.usec < b.usec
    else a.seqNum < b.seqNum
  }

  /** From this sequence number on, a step down within one microsecond is taken for a wrap. */
  const WRAP_FLOOR: int := 3_000_000_000

  /** The packet headed h, received after the one headed last, counts as out of order. */
  predicate Reordered(last: Header, h: Header) {
    last.magic != 0 && Precedes(h, last) && !(SameTime(h, last) && last.seqNum >= WRAP_FLOOR)
  }

  /** At level 3, sequence numbers have to be consecutive. */
  predicate Skipped(last: Header, h: Header) {
    last.magic != 0 && h.seqNum != (last.seqNum + 1) % TWO32
  }

  datatype Stats = Stats(last: Header, ooo: nat, badMagic: nat, badRepeat: nat)

  function Bit(b: bool): nat {
    if b then 1 else 0
  }

  /** All that the checks of a run take from a packet with at least one header. */
  datatype Digest = Digest(head: Header, genuine: bool, differing: nat)

  /** The first n headers of a packet in brief. */
  function DigestUpTo(data: seq<byte>, n: nat): Digest
    requires 0 < HDR * n <= |data|
  {
    Digest(Head(data), Head(data).magic == WIRE_MAGIC, Differing(data, n))
  }

  function Note(s: Stats, check: int, d: Digest): Stats {
    Stats(d.head,
          s.ooo + Bit(Reordered(s.last, d.head)) + Bit(check > 2 && Skipped(s.last, d.head)),
          s.badMagic + Bit(!d.genuine),
          s.badRepeat + d.differing)
  }

  /** What is known after examining the first n headers of a packet. */
  function CheckedUpTo(s: Stats, check: int, data: seq<byte>, n: nat): Stats
    requires HDR * n <= |data|
  {
    if n == 0 then s else Note(s, check, DigestUpTo(data, n))
  }

  /** How many headers get examined: all full ones, but only the first below level 2. */
  function Examined(check: int, data: seq<byte>): (n: nat)
    ensures HDR * n <= |data|
  {
    var full := |data| / HDR;
    if check < 2 && full > 1 then 1 else full
  }

  function Checked(s: Stats, check: int, data: seq<byte>): Stats {
    CheckedUpTo(s, check, data, Examined(check, data))
  }

  function Clean(s: Stats): bool {
    s.ooo == 0 && s.badMagic == 0 && s.badRepeat == 0
  }

  predicate DeviatesAt(data: seq<byte>, k: nat)
    requires HDR * k + HDR <= |data|
  {
    HeaderAt(data, k) != HeaderAt(data, 0)
  }

  /** The headers after the first that are not like it. */
  ghost function Deviating(data: seq<byte>, n: nat): set<nat>
    requires HDR * n <= |data|
  {
    set k: nat | 1 <= k < n && DeviatesAt(data, k)
  }

  lemma DeviatingNext(data: seq<byte>, n: nat)
    requires n >= 1 && HDR * n + HDR <= |data|
    ensures Deviating(data, n + 1) == Deviating(data, n) + if DeviatesAt(data, n) then {n} else {}
  {
  }

  /** Each of them counts once. */
  lemma {:induction false} DifferingIsCount(data: seq<byte>, n: nat)
    requires HDR * n <= |data|
    ensures Differing(data, n) == |Deviating(data, n)|
  {
    if n > 1 {
      DifferingIsCount(data, n - 1);
      DeviatingNext(data, n - 1);
    } else {
      assert Deviating(data, n) == {};
    }
  }

  /** The header that decides the ordering checks. */
  function Head(data: seq<byte>): Header
    requires |data| >= HDR
  {
    Decode(HeaderAt(data, 0))
  }

  lemma {:induction false} DifferingZero(data: seq<byte>, n: nat)
    requires HDR * n <= |data|
    ensures Differing(data, n) == 0 <==> forall k :: 0 <= k < n ==> HeaderAt(data, k) == HeaderAt(data, 0)
  {
    if n > 1 {
      DifferingZero(data, n - 1);
    }
  }

  function DigestOf(check: int, data: seq<byte>): Digest
    requires |data| >= HDR
  {
    Digest(Head(data), Head(data).magic == WIRE_MAGIC, if check < 2 then 0 else Differing(data, |data| / HDR))
  }

  lemma CheckedIsNote(s: Stats, check: int, data: seq<byte>)
    ensures Checked(s, check, data) == if |data| < HDR then s else Note(s, check, DigestOf(check, data))
  {
  }

  // ------------------------------------------------------------------
  // The scattered walk

  /** The segment the walk stands in before header k: it moves on by at most one per header. */
  function SegmentOf(iov: seq<Iovec>, k: nat): nat {
    if k == 0 then 0
    else
      var i := SegmentOf(iov, k - 1);
      if i < |iov| && HDR * k >= Start(iov, i + 1) then i + 1 else i
  }

  /**
   Where byte j of a header is copied from, `offset` bytes into segment i with curLen bytes of it
   received.  A header that begins in the segment and ends behind it is copied in two parts, the
   second from the base of the next segment.  Any other is taken as it lies in memory from there
   on, also one that begins behind the segment: its negative first part converts to a large number.
   */
  function CopiedFrom(iov: seq<Iovec>, i: nat, offset: nat, curLen: nat, j: nat): Address
    requires i < |iov|
  {
    var first := curLen - offset;
    if 0 <= first <= j && i + 1 < |iov| then Address(iov[i + 1].block, iov[i + 1].base + (j - first))
    else Address(iov[i].block, iov[i].base + offset + j)
  }

  /** Byte j of header k is copied from where it lies. */
  predicate ByteInPlace(iov: seq<Iovec>, i: nat, offset: nat, curLen: nat, k: nat, j: nat)
    requires i < |iov| && HDR * k + j < Total(iov)
  {
    CopiedFrom(iov, i, offset, curLen, j) == AddressOf(iov, HDR * k + j)
  }

  ghost predicate BytesInPlace(iov: seq<Iovec>, i: nat, offset: nat, curLen: nat, k: nat)
    requires i < |iov| && HDR * k + HDR <= Total(iov)
  {
    forall j: nat :: j < HDR ==> ByteInPlace(iov, i, offset, curLen, k, j)
  }

  /** Header k is copied from where it lies. */
  ghost predicate InPlace(iov: seq<Iovec>, k: nat) {
    var i := SegmentOf(iov, k);
    && i < |iov| && Start(iov, i) <= HDR * k && HDR * k + HDR <= Total(iov)
    && BytesInPlace(iov, i, HDR * k - Start(iov, i), iov[i].len, k)
  }

  /** All that the checker asks for: the headers that it examines are copied from where they lie. */
  ghost predicate SafeToCheck(check: int, iov: seq<Iovec>, received: nat) {
    check != 0 ==> forall k: nat :: HDR * k + HDR <= received && (k == 0 || check >= 2) ==> InPlace(iov, k)
  }

  /** The first `received` bytes of the segments are there and safe to check; their number is an `int`. */
  ghost predicate Checkable(check: int, iov: seq<Iovec>, mem: Memory, received: nat) {
    && iov != [] && InMemory(mem, iov) && received <= Total(iov) && received < TWO31
    && SafeToCheck(check, iov, received)
  }

  const ZERO_BYTES: seq<byte> := [0, 0, 0, 0, 0, 0, 0, 0, 0, 0, 0, 0, 0, 0, 0, 0]

  lemma {:induction false} ZeroNumber(b: seq<byte>)
    requires forall i :: 0 <= i < |b| ==> b[i] == 0
    ensures FromHost(b) == 0
  {
    if b != [] {
      ZeroNumber(b[1..]);
    }
  }

  lemma NoMagicInZeros()
    ensures Decode(ZERO_BYTES).magic == 0
  {
    ZeroNumber(ZERO_BYTES[0..4]);
  }

  /**
   Where the walk stands: `offset` bytes behind the start of segment i, of which `curLen` bytes
   were received, with `len` more received bytes in later segments and hdr headers behind it.
   The offset may lie behind the segment, so that curLen - offset is negative.  The unread bytes,
   curLen - offset + len, never are: that is what makes the mixed signed/unsigned comparisons right.
   */
  ghost predicate Cursor(iov: seq<Iovec>, received: nat, i: int, offset: int, curLen: int, len: int, hdr: nat) {
    && 0 <= i < |iov| && i == SegmentOf(iov, hdr)
    && 0 <= offset && 0 <= curLen <= iov[i].len && 0 <= len
    && (curLen < iov[i].len ==> len == 0)
    && Start(iov, i) + curLen + len == received <= Total(iov)
    && Start(iov, i) + offset == HDR * hdr <= received
  }

  /** The received part of the first segment and what lies beyond it. */
  method StartOf(iov: seq<Iovec>, received: nat) returns (curLen: nat, len: nat)
    requires iov != [] && received <= Total(iov)
    ensures Cursor(iov, received, 0, 0, curLen, len, 0)
  {
    StartNext(iov, 0);
    curLen := if AsUnsigned(received) < iov[0].len then received else iov[0].len;
    len := received - curLen;
  }

  /** With a header to come, a cursor that is not in the last received bytes has all of its segment. */
  lemma CursorCopies(iov: seq<Iovec>, received: nat, i: nat, offset: nat, curLen: nat, len: nat, hdr: nat, j: nat)
    requires Cursor(iov, received, i, offset, curLen, len, hdr) && curLen - offset + len >= HDR && j < HDR
    ensures offset == HDR * hdr - Start(iov, i)
    ensures CopiedFrom(iov, i, offset, curLen, j) == CopiedFrom(iov, i, offset, iov[i].len, j)
  {
  }

  lemma CursorIsInPlace(iov: seq<Iovec>, received: nat, i: nat, offset: nat, curLen: nat, len: nat, hdr: nat)
    requires Cursor(iov, received, i, offset, curLen, len, hdr) && curLen - offset + len >= HDR
    ensures InPlace(iov, hdr) <==> BytesInPlace(iov, i, offset, curLen, hdr)
  {
    forall j: nat | j < HDR
      ensures ByteInPlace(iov, i, offset, curLen, hdr, j) <==> ByteInPlace(iov, i, offset, iov[i].len, hdr, j)
    {
      CursorCopies(iov, received, i, offset, curLen, len, hdr, j);
    }
  }

  /** A byte copied from where it lies is the one that the flat packet has there. */
  lemma FlatByte(mem: Memory, iov: seq<Iovec>, received: nat, hdr: nat, j: nat, a: Address)
    requires InMemory(mem, iov) && HDR * hdr + HDR <= received <= Total(iov) && j < HDR
    requires a == AddressOf(iov, HDR * hdr + j)
    ensures Mapped(mem, a) && ByteAt(mem, a) == HeaderAt(Flat(mem, iov)[..received], hdr)[j]
  {
    FlatAt(mem, iov, HDR * hdr + j);
  }

  /** The copies, from addresses that are all mapped. */
  method CopyHeader(iov: seq<Iovec>, mem: Memory, i: nat, offset: nat, curLen: nat)
    returns (found: bool, pgh: seq<byte>)
    requires i < |iov| && InMemory(mem, iov) && curLen <= iov[i].len && curLen - offset >= -TWO31
    requires curLen - offset < HDR && i + 1 == |iov| ==> curLen < offset
    requires forall j: nat :: j < HDR ==> Mapped(mem, CopiedFrom(iov, i, offset, curLen, j))
    ensures found && |pgh| == HDR
    ensures forall j: nat :: j < HDR ==> pgh[j] == ByteAt(mem, CopiedFrom(iov, i, offset, curLen, j))
  {
    var e, firstChunk := iov[i], curLen - offset;
    found := true;
    assert Mapped(mem, CopiedFrom(iov, i, offset, curLen, HDR - 1));
    if AsUnsigned(firstChunk) < HDR {
      pgh := Load(mem, e.block, e.base + offset, firstChunk);
      var secondChunk := HDR - firstChunk;
      if secondChunk > 0 {
        if i + 1 >= |iov| {
          return false, [];
        }
        pgh := pgh + Load(mem, iov[i + 1].block, iov[i + 1].base, secondChunk);
      }
    } else {
      pgh := Load(mem, e.block, e.base + offset, HDR);
    }
  }

  /**
   Reads the header under the cursor, reassembling it when it straddles two segments.  All of its
   bytes are received ones.
   */
  method FetchHeader(iov: seq<Iovec>, mem: Memory, ghost received: nat,
                     i: nat, offset: nat, curLen: nat, len: nat, ghost hdr: nat)
    returns (found: bool, pgh: seq<byte>)
    requires InMemory(mem, iov) && InPlace(iov, hdr) && received < TWO31
    requires Cursor(iov, received, i, offset, curLen, len, hdr) && curLen - offset + len >= HDR
    ensures found && HDR * hdr + HDR <= received
    ensures pgh == HeaderAt(Flat(mem, iov)[..received], hdr)
  {
    StartNext(iov, i);
    CursorIsInPlace(iov, received, i, offset, curLen, len, hdr);
    forall j: nat | j < HDR
      ensures var a := CopiedFrom(iov, i, offset, curLen, j);
        Mapped(mem, a) && ByteAt(mem, a) == HeaderAt(Flat(mem, iov)[..received], hdr)[j]
    {
      assert ByteInPlace(iov, i, offset, curLen, hdr, j);
      FlatByte(mem, iov, received, hdr, j, CopiedFrom(iov, i, offset, curLen, j));
    }
    found, pgh := CopyHeader(iov, mem, i, offset, curLen);
  }

  /** Moves the cursor over one header; `done` when there is no further segment. */
  method Advance(iov: seq<Iovec>, ghost received: nat, i: nat, offset: nat, curLen: nat, len: nat, ghost hdr: nat)
    returns (done: bool, i': nat, offset': nat, curLen': nat, len': nat)
    requires Cursor(iov, received, i, offset, curLen, len, hdr) && curLen - offset + len >= HDR
    ensures !done ==> Cursor(iov, received, i', offset', curLen', len', hdr + 1)
    ensures !done ==> curLen' - offset' + len' == curLen - offset + len - HDR
    ensures done ==> HDR * (hdr + 1) == received
  {
    StartNext(iov, i);
    done, i', offset', curLen', len' := false, i, offset + HDR, curLen, len;
    if AsUnsigned(offset') >= iov[i'].len {
      offset' := offset' - iov[i'].len;
      i' := i' + 1;
      if i' >= |iov| {
        done := true;
      } else {
        StartNext(iov, i');
        curLen' := if AsUnsigned(len') < iov[i'].len then len' else iov[i'].len;
        len' := len' - curLen';
      }
    }
  }

  // ------------------------------------------------------------------
  // What the checker asks for is exact

  /** The walk gets to every received header, whatever it reads on the way. */
  lemma {:induction false} WalkReaches(iov: seq<Iovec>, received: nat, hdr: nat)
    returns (i: nat, offset: nat, curLen: nat, len: nat)
    requires iov != [] && HDR * hdr + HDR <= received <= Total(iov)
    ensures Cursor(iov, received, i, offset, curLen, len, hdr) && curLen - offset + len >= HDR
  {
    if hdr == 0 {
      StartNext(iov, 0);
      i, offset := 0, 0;
      curLen := if received < iov[0].len then received else iov[0].len;
      len := received - curLen;
    } else {
      i, offset, curLen, len := WalkReaches(iov, received, hdr - 1);
      i, offset, curLen, len := CursorNext(iov, received, i, offset, curLen, len, hdr - 1);
    }
  }

  /** The cursor behind a header, when more is to come. */
  lemma CursorNext(iov: seq<Iovec>, received: nat, i: nat, offset: nat, curLen: nat, len: nat, hdr: nat)
    returns (i': nat, offset': nat, curLen': nat, len': nat)
    requires Cursor(iov, received, i, offset, curLen, len, hdr)
    requires curLen - offset + len >= 2 * HDR
    ensures Cursor(iov, received, i', offset', curLen', len', hdr + 1)
    ensures curLen' - offset' + len' == curLen - offset + len - HDR
  {
    StartNext(iov, i);
    i', offset', curLen', len' := i, offset + HDR, curLen, len;
    if offset' >= iov[i].len {
      offset', i' := offset' - iov[i].len, i + 1;
      StartNext(iov, i');
      curLen' := if len < iov[i'].len then len else iov[i'].len;
      len' := len - curLen';
    }
  }

  /** Wherever the walk stands before a header that it examines, it copies the right bytes. */
  ghost predicate CopiesInPlace(check: int, iov: seq<Iovec>, received: nat) {
    forall i: nat, offset: nat, curLen: nat, len: nat, hdr: nat ::
      Cursor(iov, received, i, offset, curLen, len, hdr) && curLen - offset + len >= HDR &&
      (hdr == 0 || check >= 2) ==>
      BytesInPlace(iov, i, offset, curLen, hdr)
  }

  /** The walk copies every header that it examines from where it lies if and only if the checker's demand is met. */
  lemma SafetyIsExact(check: int, iov: seq<Iovec>, received: nat)
    requires check != 0 && iov != [] && received <= Total(iov)
    ensures SafeToCheck(check, iov, received) <==> CopiesInPlace(check, iov, received)
  {
    if SafeToCheck(check, iov, received) {
      forall i: nat, offset: nat, curLen: nat, len: nat, hdr: nat
        | Cursor(iov, received, i, offset, curLen, len, hdr) && curLen - offset + len >= HDR &&
          (hdr == 0 || check >= 2)
        ensures BytesInPlace(iov, i, offset, curLen, hdr)
      {
        CursorIsInPlace(iov, received, i, offset, curLen, len, hdr);
      }
    }
    if CopiesInPlace(check, iov, received) {
      forall k: nat | HDR * k + HDR <= received && (k == 0 || check >= 2)
        ensures InPlace(iov, k)
      {
        var i, offset, curLen, len := WalkReaches(iov, received, k);
        CursorIsInPlace(iov, received, i, offset, curLen, len, k);
      }
    }
  }

  // ------------------------------------------------------------------
  // The checker

  class Checker {
    const check: int
    var last: Header
    var ooo: nat
    var badMagic: nat
    var badRepeat: nat

    constructor (level: int)
      ensures check == level && State() == Stats(NO_HEADER, 0, 0, 0)
    {
      check := level;
      last := NO_HEADER;
      ooo, badMagic, badRepeat := 0, 0, 0;
    }

    function State(): Stats
      reads this
    {
      Stats(last, ooo, badMagic, badRepeat)
    }

    /** `init_stats`: the counters restart, the last header stays. */
    method InitStats()
      modifies this
      ensures State() == Stats(old(last), 0, 0, 0)
    {
      ooo := 0;
      badMagic := 0;
      badRepeat := 0;
    }

    /** The first header of a packet: magic, order and, at level 3, consecutiveness. */
    method FirstHeader(pgh: seq<byte>)
      requires |pgh| == HDR
      modifies this
      ensures var h := Decode(pgh);
        State() == Stats(h,
                         old(ooo) + Bit(Reordered(old(last), h)) + Bit(check > 2 && Skipped(old(last), h)),
                         old(badMagic) + Bit(h.magic != WIRE_MAGIC),
                         old(badRepeat))
    {
      var h := Decode(pgh);
      MagicField(h.magic);
      if SwapBytes(h.magic) != PKTGEN_MAGIC {
        badMagic := badMagic + 1;
      }
      if last.magic != 0 && (h.sec < last.sec ||
                             (h.sec == last.sec && h.usec < last.usec) ||
                             (h.sec == last.sec && h.usec == last.usec &&
                              h.seqNum < last.seqNum && last.seqNum < 3 * 1000 * 1000 * 1000)) {
        ooo := ooo + 1;
      }
      if check > 2 && last.magic != 0 {
        if h.seqNum != (last.seqNum + 1) % TWO32 {
          ooo := ooo + 1;
        }
      }
      last := h;
    }

    /** A later header: it has to repeat the first. */
    method RepeatedHeader(pgh: seq<byte>, current: seq<byte>)
      modifies this`badRepeat
      ensures badRepeat == old(badRepeat) + Bit(current != pgh)
    {
      if current != pgh {
        badRepeat := badRepeat + 1;
      }
    }

    /** What the walk does with header number hdr, once it has been fetched. */
    method NoteHeader(pgh: seq<byte>, hdr: nat, current: seq<byte>, ghost before: Stats, ghost data: seq<byte>)
      requires HDR * hdr + HDR <= |data| && pgh == HeaderAt(data, hdr)
      requires State() == CheckedUpTo(before, check, data, hdr)
      requires hdr > 0 ==> current == HeaderAt(data, 0)
      modifies this
      ensures State() == CheckedUpTo(before, check, data, hdr + 1)
    {
      if hdr == 0 {
        FirstHeader(pgh);
      } else {
        RepeatedHeader(pgh, current);
      }
    }

    /** The end of the walk: level 3 gives up on any error, and the last header is kept. */
    method Finish(current: seq<byte>, ghost n: nat, ghost before: Stats, ghost data: seq<byte>) returns (exits: bool)
      requires HDR * n <= |data| && State() == CheckedUpTo(before, check, data, n)
      requires current == ZERO_BYTES || (n > 0 && current == HeaderAt(data, 0))
      modifies this`last
      ensures State() == old(State())
      ensures exits <==> check > 2 && !Clean(State())
    {
      exits := check > 2 && (ooo != 0 || badRepeat != 0 || badMagic != 0);
      NoMagicInZeros();
      if !exits && Decode(current).magic != 0 {
        last := Decode(current);
      }
    }

    /** One turn of the walk: header hdr is examined; `done` when no other one is to come. */
    method OneHeader(iov: seq<Iovec>, mem: Memory, ghost received: nat,
                     i: nat, offset: nat, curLen: nat, len: nat, hdr: nat, current: seq<byte>, ghost before: Stats)
      returns (done: bool, i': nat, offset': nat, curLen': nat, len': nat, current': seq<byte>, ghost pgh: seq<byte>)
      requires check != 0 && Checkable(check, iov, mem, received) && (hdr > 0 ==> check >= 2)
      requires Cursor(iov, received, i, offset, curLen, len, hdr) && curLen - offset + len >= HDR
      requires State() == CheckedUpTo(before, check, Flat(mem, iov)[..received], hdr)
      requires hdr > 0 ==> current == HeaderAt(Flat(mem, iov)[..received], 0)
      modifies this
      ensures HDR * hdr + HDR <= received && pgh == HeaderAt(Flat(mem, iov)[..received], hdr)
      ensures State() == CheckedUpTo(before, check, Flat(mem, iov)[..received], hdr + 1)
      ensures current' == if check >= 2 then HeaderAt(Flat(mem, iov)[..received], 0) else current
      ensures done ==> hdr + 1 == Examined(check, Flat(mem, iov)[..received])
      ensures !done ==>
        && check >= 2 && Cursor(iov, received, i', offset', curLen', len', hdr + 1)
        && curLen' - offset' + len' == curLen - offset + len - HDR
    {
      ghost var data := Flat(mem, iov)[..received];
      assert InPlace(iov, hdr);
      var found, header := FetchHeader(iov, mem, received, i, offset, curLen, len, hdr);
      pgh := header;
      NoteHeader(header, hdr, current, before, data);
      current' := current;
      if hdr == 0 {
        if check < 2 {
          done, i', offset', curLen', len' := true, i, offset, curLen, len;
          return;
        }
        current' := header;
      }
      done, i', offset', curLen', len' := Advance(iov, received, i, offset, curLen, len, hdr);
    }

    /**
     The walk over the headers of the first `received` bytes: n of them get examined, and `seen`
     records them in the order they are read.
     */
    method Walk(iov: seq<Iovec>, mem: Memory, received: nat)
      returns (current: seq<byte>, ghost n: nat, ghost seen: seq<seq<byte>>)
      requires check != 0 && Checkable(check, iov, mem, received)
      modifies this
      ensures var data := Flat(mem, iov)[..received];
        && n == Examined(check, data) && seen == Headers(data, n)
        && State() == CheckedUpTo(old(State()), check, data, n)
        && (current == ZERO_BYTES || (n > 0 && current == HeaderAt(data, 0)))
    {
      ghost var data := Flat(mem, iov)[..received];
      ghost var before := State();
      var offset: nat, i: nat, hdr: nat := 0, 0, 0;
      current := ZERO_BYTES;
      var curLen, len := StartOf(iov, received);
      seen := [];
      n := 0;
      while AsUnsigned(curLen - offset + len) >= HDR
        invariant Cursor(iov, received, i, offset, curLen, len, hdr)
        invariant n == hdr && HDR * hdr <= received == |data|
        invariant State() == CheckedUpTo(before, check, data, hdr)
        invariant hdr > 0 ==> check >= 2
        invariant current == if hdr > 0 then HeaderAt(data, 0) else ZERO_BYTES
        invariant seen == Headers(data, hdr)
        decreases curLen - offset + len
      {
        var done;
        ghost var pgh;
        done, i, offset, curLen, len, current, pgh :=
          OneHeader(iov, mem, received, i, offset, curLen, len, hdr, current, before);
        hdr := hdr + 1;
        n, seen := hdr, seen + [pgh];
        if done {
          return;
        }
      }
    }

    /**
     `__check_pkt` on the first `received` bytes of the segments.  The result says
     whether the process exits; `seen` are the headers in the order they are read.
     */
    method CheckPacket(iov: seq<Iovec>, mem: Memory, received: nat) returns (exits: bool, ghost seen: seq<seq<byte>>)
      requires check != 0 && Checkable(check, iov, mem, received)
      modifies this
      ensures State() == Checked(old(State()), check, Flat(mem, iov)[..received])
      ensures exits <==> check > 2 && !Clean(State())
      ensures seen == Headers(Flat(mem, iov)[..received], Examined(check, Flat(mem, iov)[..received]))
      ensures var data := Flat(mem, iov)[..received];
        badRepeat == old(badRepeat) + |Deviating(data, Examined(check, data))|
    {
      ghost var data := Flat(mem, iov)[..received];
      ghost var before := State();
      ghost var n;
      var current;
      current, n, seen := Walk(iov, mem, received);
      DifferingIsCount(data, n);
      exits := Finish(current, n, before, data);
    }

    /** `check_pkt`: nothing happens unless checking was asked for. */
    method CheckPkt(iov: seq<Iovec>, mem: Memory, received: nat) returns (exits: bool)
      requires Checkable(check, iov, mem, received)
      modifies this
      ensures State() == if check == 0 then old(State()) else Checked(old(State()), check, Flat(mem, iov)[..received])
      ensures exits <==> check > 2 && !Clean(State())
    {
      if check == 0 {
        return false;
      }
      ghost var seen;
      exits, seen := CheckPacket(iov, mem, received);
    }
  }
}
