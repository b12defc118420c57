/**
 The pktgen header carried by every checked packet (`struct pktgen_hdr`), as
 bytes in memory and as four 32-bit fields.  The host is little-endian: the
 fields are read and written in host order, and only the magic number passes
 through `htonl`/`ntohl`.
 */
module Wire {

  type byte = x: int | 0 <= x < 256

  type uint32 = x: int | 0 <= x < 0x1_0000_0000

  const TWO31: int := 0x8000_0000

  const TWO32: int := 0x1_0000_0000

  const TWO64: int := 0x1_0000_0000_0000_0000

  /** The conversion of a signed integer to a 64-bit unsigned one, as C applies it in mixed comparisons. */
  function AsUnsigned(x: int): int {
    if x < 0 then x + TWO64 else x
  }

  /** `sizeof(struct pktgen_hdr)`. */
  const HDR: nat := 16

  const PKTGEN_MAGIC: uint32 := 0xbe9be955

  datatype Header = Header(magic: uint32, seqNum: uint32, sec: uint32, usec: uint32)

  /** A zero-initialised header: `{ .pgh_magic = 0 }`. */
  const NO_HEADER: Header := Header(0, 0, 0, 0)

  /** The number whose least significant byte comes first. */
  function FromHost(b: seq<byte>): nat {
    if b == [] then 0 else b[0] + 0x100 * FromHost(b[1..])
  }

  /** The n least significant bytes of x, the least significant first. */
  function ToHost(x: nat, n: nat): (b: seq<byte>)
    ensures |b| == n
  {
    if n == 0 then [] else [x % 0x100] + ToHost(x / 0x100, n - 1)
  }

  function Power256(n: nat): nat {
    if n == 0 then 1 else 0x100 * Power256(n - 1)
  }

  /** A field of the header. */
  function Word(b: seq<byte>): uint32
    requires |b| == 4
  {
    HostBound(b);
    FromHost(b)
  }

  /** `ntohl` and `htonl`: the value whose host-order bytes are reversed. */
  function SwapBytes(x: uint32): uint32 {
    var b := ToHost(x, 4);
    Word([b[3], b[2], b[1], b[0]])
  }

  /** The magic number as it stands in the field: `htonl(PKTGEN_MAGIC)`. */
  const WIRE_MAGIC: uint32 := 0x55e99bbe

  /** Reading the struct out of sixteen bytes of memory. */
  function Decode(b: seq<byte>): Header
    requires |b| == HDR
  {
    Header(Word(b[0..4]), Word(b[4..8]), Word(b[8..12]), Word(b[12..16]))
  }

  /** The struct's bytes in memory. */
  function Encode(h: Header): (b: seq<byte>)
    ensures |b| == HDR
  {
    ToHost(h.magic, 4) + ToHost(h.seqNum, 4) + ToHost(h.sec, 4) + ToHost(h.usec, 4)
  }

  lemma {:induction false} HostBound(b: seq<byte>)
    ensures FromHost(b) < Power256(|b|)
  {
    if b != [] {
      HostBound(b[1..]);
    }
  }

  lemma {:induction false} HostRoundTrip(x: nat, n: nat)
    requires x < Power256(n)
    ensures FromHost(ToHost(x, n)) == x
  {
    if n > 0 {
      HostRoundTrip(x / 0x100, n - 1);
      assert ToHost(x, n)[1..] == ToHost(x / 0x100, n - 1);
    }
  }

  lemma {:induction false} HostBytesRoundTrip(b: seq<byte>)
    ensures ToHost(FromHost(b), |b|) == b
  {
    if b != [] {
      var rest := FromHost(b[1..]);
      HostBytesRoundTrip(b[1..]);
      assert FromHost(b) / 0x100 == rest && FromHost(b) % 0x100 == b[0];
    }
  }

  lemma WordRoundTrip(x: uint32)
    ensures Word(ToHost(x, 4)) == x
  {
    assert Power256(4) == TWO32;
    HostRoundTrip(x, 4);
  }

  /** `htonl` then `ntohl` is the identity. */
  lemma SwapTwice(x: uint32)
    ensures SwapBytes(SwapBytes(x)) == x
  {
    var b := ToHost(x, 4);
    HostBytesRoundTrip([b[3], b[2], b[1], b[0]]);
    WordRoundTrip(x);
    assert [b[0], b[1], b[2], b[3]] == b;
  }

  lemma MagicBytes()
    ensures SwapBytes(PKTGEN_MAGIC) == WIRE_MAGIC
  {
    var b: seq<byte> := [0xbe, 0x9b, 0xe9, 0x55];
    assert ToHost(0xbe9b, 2) == [0x9b] + ToHost(0xbe, 1);
    assert ToHost(0xbe9be9, 3) == [0xe9] + ToHost(0xbe9b, 2);
    assert ToHost(PKTGEN_MAGIC, 4) == [0x55] + ToHost(0xbe9be9, 3);
    assert b[1..] == [0x9b, 0xe9, 0x55] && b[1..][1..] == [0xe9, 0x55] && b[1..][1..][1..] == [0x55];
    assert FromHost([0x55]) == 0x55;
    assert FromHost([0xe9, 0x55]) == 0x55e9;
    assert FromHost([0x9b, 0xe9, 0x55]) == 0x55e99b;
  }

  /** `ntohl(m) == PKTGEN_MAGIC` singles out one value of the field. */
  lemma MagicField(m: uint32)
    ensures SwapBytes(m) == PKTGEN_MAGIC <==> m == WIRE_MAGIC
  {
    MagicBytes();
    SwapTwice(m);
    SwapTwice(PKTGEN_MAGIC);
  }

  /** Four bytes as a number, the least significant first. */
  lemma FourBytes(b: seq<byte>)
    requires |b| == 4
    ensures FromHost(b) == b[0] as int + 0x100 * b[1] as int + 0x1_0000 * b[2] as int + 0x100_0000 * b[3] as int
  {
    assert b[1..][1..][1..][1..] == [];
    assert FromHost(b[1..][1..][1..]) == b[3];
    assert FromHost(b[1..][1..]) == b[2] as int + 0x100 * b[3] as int;
  }

  /** Which bytes of a header carry which field: four bytes each, the least significant first. */
  lemma FieldBytes(h: Header)
    ensures var b := Encode(h);
      && h.magic == b[0] as int + 0x100 * b[1] as int + 0x1_0000 * b[2] as int + 0x100_0000 * b[3] as int
      && h.seqNum == b[4] as int + 0x100 * b[5] as int + 0x1_0000 * b[6] as int + 0x100_0000 * b[7] as int
      && h.sec == b[8] as int + 0x100 * b[9] as int + 0x1_0000 * b[10] as int + 0x100_0000 * b[11] as int
      && h.usec == b[12] as int + 0x100 * b[13] as int + 0x1_0000 * b[14] as int + 0x100_0000 * b[15] as int
  {
    var m, n, s, u := ToHost(h.magic, 4), ToHost(h.seqNum, 4), ToHost(h.sec, 4), ToHost(h.usec, 4);
    Quarters(m, n, s, u);
    NumberInBytes(h.magic);
    NumberInBytes(h.seqNum);
    NumberInBytes(h.sec);
    NumberInBytes(h.usec);
  }

  lemma NumberInBytes(x: uint32)
    ensures var b := ToHost(x, 4);
      x == b[0] as int + 0x100 * b[1] as int + 0x1_0000 * b[2] as int + 0x100_0000 * b[3] as int
  {
    WordRoundTrip(x);
    FourBytes(ToHost(x, 4));
  }

  /** The magic number goes out in network order. */
  lemma MagicOnTheWire(h: Header)
    requires h.magic == WIRE_MAGIC
    ensures Encode(h)[..4] == [0xbe, 0x9b, 0xe9, 0x55]
  {
    var b: seq<byte> := [0xbe, 0x9b, 0xe9, 0x55];
    FourBytes(b);
    HostBytesRoundTrip(b);
    assert Encode(h)[..4] == ToHost(WIRE_MAGIC, 4);
  }

  lemma Quarters(a: seq<byte>, b: seq<byte>, c: seq<byte>, d: seq<byte>)
    requires |a| == |b| == |c| == |d| == 4
    ensures (a + b + c + d)[0..4] == a && (a + b + c + d)[4..8] == b
    ensures (a + b + c + d)[8..12] == c && (a + b + c + d)[12..16] == d
  {
  }

  lemma DecodeEncode(h: Header)
    ensures Decode(Encode(h)) == h
  {
    Quarters(ToHost(h.magic, 4), ToHost(h.seqNum, 4), ToHost(h.sec, 4), ToHost(h.usec, 4));
    WordRoundTrip(h.magic);
    WordRoundTrip(h.seqNum);
    WordRoundTrip(h.sec);
    WordRoundTrip(h.usec);
  }

  /** A header's bytes and its fields determine each other, so `memcmp` compares fields. */
  lemma EncodeDecode(b: seq<byte>)
    requires |b| == HDR
    ensures Encode(Decode(b)) == b
  {
    HostBytesRoundTrip(b[0..4]);
    HostBytesRoundTrip(b[4..8]);
    HostBytesRoundTrip(b[8..12]);
    HostBytesRoundTrip(b[12..16]);
    assert b == b[0..4] + b[4..8] + b[8..12] + b[12..16];
  }
}
