/**
 The CPU masks of the XPS set-up script: printing a mask in hexadecimal, reading it back
 with shell arithmetic on 64-bit signed integers, and listing the CPUs it covers.
 */
module CpuMask {
  import opened Wire

  const TWO63: int := 0x8000_0000_0000_0000

  /** Shell integers wrap around at 64 bits. */
  function AsInt64(x: int): int {
    var low := x % TWO64;
    if low < TWO63 then low else low - TWO64
  }

  function Pow2(n: nat): nat {
    if n == 0 then 1 else 2 * Pow2(n - 1)
  }

  // ------------------------------------------------------------------
  // From a mask to CPUs

  /** Bit c of a mask. */
  predicate HasBit(mask: nat, c: nat) {
    if c == 0 then mask % 2 == 1 else HasBit(mask / 2, c - 1)
  }

  /** The CPUs of a mask whose lowest bit stands for CPU `from`. */
  function Cpus(mask: nat, from: nat): seq<nat> {
    if mask == 0 then []
    else (if mask % 2 == 1 then [from] else []) + Cpus(mask / 2, from + 1)
  }

  /** A shell integer that is negative covers no CPU. */
  function CpusOfValue(value: int): seq<nat> {
    if value < 0 then [] else Cpus(value, 0)
  }

  function SumOfPowers(cpus: seq<nat>): nat {
    if cpus == [] then 0 else Pow2(cpus[0]) + SumOfPowers(cpus[1..])
  }

  predicate Ascending(cpus: seq<nat>) {
    forall i, j :: 0 <= i < j < |cpus| ==> cpus[i] < cpus[j]
  }

  /** `mask_to_cpus`: shifts the mask out, noting the CPUs of its set bits; a negative mask has none. */
  method MaskToCpus(value: int) returns (cpus: seq<nat>, disabled: bool)
    requires value < TWO63
    ensures cpus == CpusOfValue(value)
    ensures disabled <==> value == 0
  {
    var mask, cpu := value, 0;
    cpus, disabled := [], mask == 0;
    while mask > 0
      invariant cpu >= 0 && (value < 0 ==> mask == value && cpus == [])
      invariant value >= 0 ==> mask >= 0 && cpus + Cpus(mask, cpu) == Cpus(value, 0)
    {
      if mask % 2 == 1 {
        cpus := cpus + [cpu];
      }
      cpu := cpu + 1;
      mask := mask / 2;
    }
  }

  lemma {:induction false} CpusFrom(mask: nat, from: nat)
    ensures forall i :: 0 <= i < |Cpus(mask, from)| ==> Cpus(mask, from)[i] >= from
    ensures Ascending(Cpus(mask, from))
  {
    if mask > 0 {
      CpusFrom(mask / 2, from + 1);
    }
  }

  lemma {:induction false} CpusAreBits(mask: nat, from: nat, c: nat)
    requires c >= from
    ensures c in Cpus(mask, from) <==> HasBit(mask, c - from)
  {
    CpusFrom(mask / 2, from + 1);
    if mask == 0 {
      NoBits(c - from);
    } else if c > from {
      CpusAreBits(mask / 2, from + 1, c);
    }
  }

  lemma {:induction false} NoBits(c: nat)
    ensures !HasBit(0, c)
  {
    if c > 0 {
      NoBits(c - 1);
    }
  }

  lemma {:induction false} CpusSumUp(mask: nat, from: nat)
    ensures SumOfPowers(Cpus(mask, from)) == mask * Pow2(from)
  {
    if mask > 0 {
      CpusSumUp(mask / 2, from + 1);
      SumNext(mask, from);
      Halves(mask / 2, mask % 2, Pow2(from));
    }
  }

  lemma SumNext(mask: nat, from: nat)
    requires mask > 0
    ensures SumOfPowers(Cpus(mask, from)) ==
      SumOfPowers(Cpus(mask / 2, from + 1)) + if mask % 2 == 1 then Pow2(from) else 0
  {
    var rest := Cpus(mask / 2, from + 1);
    if mask % 2 == 1 {
      assert ([from] + rest)[1..] == rest;
    } else {
      assert Cpus(mask, from) == rest;
    }
  }

  lemma Halves(half: nat, bit: nat, p: nat)
    ensures (2 * half + bit) * p == half * (2 * p) + bit * p
  {
  }

  /** The listed CPUs are the set bits in ascending order, and their powers add up to the mask. */
  lemma ListIsMask(mask: nat)
    ensures Ascending(Cpus(mask, 0))
    ensures forall c: nat :: c in Cpus(mask, 0) <==> HasBit(mask, c)
    ensures SumOfPowers(Cpus(mask, 0)) == mask
  {
    CpusFrom(mask, 0);
    CpusSumUp(mask, 0);
    CpusAreTheBits(mask);
  }

  lemma CpusAreTheBits(mask: nat)
    ensures forall c: nat :: c in Cpus(mask, 0) <==> HasBit(mask, c)
  {
    forall c: nat
      ensures c in Cpus(mask, 0) <==> HasBit(mask, c)
    {
      CpusAreBits(mask, 0, c);
    }
  }

  // ------------------------------------------------------------------
  // Hexadecimal text

  const DIGITS: string := "0123456789ABCDEF"

  /** `printf "%X"` of a number that fits 64 bits unsigned. */
  function Hex(n: nat): (text: string)
    ensures text != []
  {
    if n < 16 then [DIGITS[n]] else Hex(n / 16) + [DIGITS[n % 16]]
  }

  function DigitValue(c: char): nat {
    if '0' <= c <= '9' then (c as int) - ('0' as int)
    else if 'A' <= c <= 'F' then (c as int) - ('A' as int) + 10
    else 0
  }

  /** The number that hexadecimal digits stand for. */
  function Unhex(text: string): nat {
    if text == [] then 0 else 16 * Unhex(text[..|text| - 1]) + DigitValue(text[|text| - 1])
  }

  /** `$((0x$mask))`. */
  function ParseMask(text: string): int {
    AsInt64(Unhex(text))
  }

  lemma DigitRoundTrip(d: nat)
    requires d < 16
    ensures DigitValue(DIGITS[d]) == d
  {
  }

  lemma {:induction false} HexRoundTrip(n: nat)
    ensures Unhex(Hex(n)) == n
  {
    if n < 16 {
      DigitRoundTrip(n);
      assert Hex(n)[..0] == "";
    } else {
      HexRoundTrip(n / 16);
      DigitRoundTrip(n % 16);
      assert Hex(n)[..|Hex(n)| - 1] == Hex(n / 16);
    }
  }

  // ------------------------------------------------------------------
  // From a CPU to a mask

  /** `1 << cpu` on 64-bit integers; the machine uses the shift count modulo 64. */
  function ShiftedOne(cpu: nat): int {
    AsInt64(Pow2(cpu % 64))
  }

  /** `cpu_to_mask`: `%X` prints a negative number as unsigned. */
  function CpuToMask(cpu: nat): string {
    Hex(ShiftedOne(cpu) % TWO64)
  }

  /** The text of a power of two: one of four digits, and a zero for every four CPUs below. */
  lemma {:induction false} PowerText(q: nat, r: nat)
    requires r < 4
    ensures Hex(Pow2(4 * q + r)) == ["1248"[r]] + Zeros(q)
  {
    if q == 0 {
      SmallPowers(r);
    } else {
      var c := 4 * (q - 1) + r;
      PowerText(q - 1, r);
      PowPositive(c);
      PowSum(c, 4);
      assert Pow2(4) == 16;
      OneMoreZero(Pow2(c), ["1248"[r]], q - 1);
    }
  }

  /** Sixteen times as much has one zero more. */
  lemma OneMoreZero(n: nat, digit: string, zeros: nat)
    requires n >= 1 && Hex(n) == digit + Zeros(zeros)
    ensures Hex(n * 16) == digit + Zeros(zeros + 1)
  {
    SixteenTimes(n);
    assert digit + Zeros(zeros) + "0" == digit + (Zeros(zeros) + "0");
  }

  lemma SmallPowers(c: nat)
    requires c < 4
    ensures Hex(Pow2(c)) == ["1248"[c]]
  {
    assert Pow2(c) == if c == 0 then 1 else if c == 1 then 2 else if c == 2 then 4 else 8;
  }

  lemma SixteenTimes(n: nat)
    requires n >= 1
    ensures Hex(n * 16) == Hex(n) + "0"
  {
    assert n * 16 / 16 == n && n * 16 % 16 == 0;
  }

  function Zeros(n: nat): (text: string)
    ensures |text| == n && forall i :: 0 <= i < n ==> text[i] == '0'
  {
    if n == 0 then "" else Zeros(n - 1) + "0"
  }

  /** So the text for each CPU that a mask can hold. */
  lemma MaskText(c: nat)
    requires c <= 62
    ensures CpuToMask(c) == ["1248"[c % 4]] + Zeros(c / 4)
  {
    SmallMask(c);
    assert c == 4 * (c / 4) + c % 4;
    PowerText(c / 4, c % 4);
  }

  lemma SmallMask(c: nat)
    requires c <= 62
    ensures CpuToMask(c) == Hex(Pow2(c))
  {
    assert c % 64 == c;
    OneShifted(c);
    SmallStays(Pow2(c));
  }

  lemma SmallStays(x: nat)
    requires x < TWO63
    ensures x % TWO64 == x
  {
  }

  /** What listing a queue shows whose file holds this text. */
  function ListedCpus(text: string): seq<nat> {
    CpusOfValue(ParseMask(text))
  }

  lemma {:induction false} CpusOfPower(c: nat, from: nat)
    ensures Cpus(Pow2(c), from) == [from + c]
  {
    if c > 0 {
      CpusOfPower(c - 1, from + 1);
      PowPositive(c - 1);
    }
  }

  lemma {:induction false} PowPositive(n: nat)
    ensures Pow2(n) >= 1
  {
    if n > 0 {
      PowPositive(n - 1);
    }
  }

  lemma {:induction false} PowGrows(a: nat, b: nat)
    requires a <= b
    ensures Pow2(a) <= Pow2(b) && (a < b ==> 2 * Pow2(a) <= Pow2(b))
  {
    if a < b {
      PowGrows(a, b - 1);
    }
  }

  lemma Pow2Of32()
    ensures Pow2(32) == TWO32
  {
    assert Pow2(8) == 0x100;
    PowSum(8, 8);
    PowSum(16, 16);
  }

  lemma Pow2Of63()
    ensures Pow2(63) == TWO63
  {
    Pow2Of32();
    assert 2 * Pow2(31) == Pow2(32);
    PowSum(32, 31);
  }

  lemma {:induction false} PowSum(a: nat, b: nat)
    ensures Pow2(a + b) == Pow2(a) * Pow2(b)
  {
    if b > 0 {
      PowSum(a, b - 1);
    }
  }

  lemma WrapsBack(x: int)
    requires -TWO63 <= x < TWO63
    ensures 0 <= x % TWO64 && AsInt64(x % TWO64) == x
  {
    if x < 0 {
      assert x % TWO64 == x + TWO64;
    }
  }

  lemma OneShifted(k: nat)
    requires k < 64
    ensures AsInt64(Pow2(k)) == if k == 63 then -TWO63 else Pow2(k)
    ensures k < 63 ==> Pow2(k) < TWO63
  {
    Pow2Of63();
    PowGrows(k, 63);
  }

  lemma MaskValue(c: nat)
    ensures var k := c % 64;
      ParseMask(CpuToMask(c)) == if k == 63 then -TWO63 else Pow2(k)
  {
    OneShifted(c % 64);
    WrapsBack(ShiftedOne(c));
    HexRoundTrip(ShiftedOne(c) % TWO64);
  }

  lemma ListedMask(c: nat)
    ensures ListedCpus(CpuToMask(c)) == if c % 64 == 63 then [] else [c % 64]
  {
    MaskValue(c);
    CpusOfPower(c % 64, 0);
  }

  lemma RoundTripRange(c: nat, listed: seq<nat>)
    requires listed == if c % 64 == 63 then [] else [c % 64]
    ensures listed == [c] <==> c <= 62
  {
    assert c == 64 * (c / 64) + c % 64;
    if listed == [c] {
      assert listed[0] == c;
    }
  }

  /** A CPU survives being written as a mask and listed again exactly if it is at most 62. */
  lemma CpuRoundTrip(c: nat)
    ensures ListedCpus(CpuToMask(c)) == [c] <==> c <= 62
  {
    ListedMask(c);
    RoundTripRange(c, ListedCpus(CpuToMask(c)));
  }

  lemma ZeroIsDisabled()
    ensures ParseMask("0") == 0 && ListedCpus("0") == []
  {
    assert "0"[..0] == "";
    assert Unhex("0") == 0;
  }

  // ------------------------------------------------------------------
  // The script's two loops over the queues

  /** `xps_setup_1to1_mapping`: one file per queue, in queue order. */
  method Setup1to1(files: array<string>, disable: bool)
    modifies files
    ensures forall q :: 0 <= q < files.Length ==> files[q] == if disable then "0" else CpuToMask(q)
  {
    var cpu := 0;
    for txq := 0 to files.Length
      invariant cpu == txq
      invariant forall q :: 0 <= q < txq ==> files[q] == if disable then "0" else CpuToMask(q)
    {
      files[txq] := if disable then "0" else CpuToMask(cpu);
      cpu := cpu + 1;
    }
  }

  /** What listing shows, queue by queue. */
  function Listing(files: seq<string>): (listing: seq<seq<nat>>)
    ensures |listing| == |files|
  {
    if files == [] then [] else Listing(files[..|files| - 1]) + [ListedCpus(files[|files| - 1])]
  }

  lemma {:induction false} ListingAt(files: seq<string>, q: nat)
    requires q < |files|
    ensures Listing(files)[q] == ListedCpus(files[q])
  {
    if q < |files| - 1 {
      ListingAt(files[..|files| - 1], q);
    }
  }

  /** `list_xps_setup`. */
  method ListSetup(files: seq<string>) returns (listing: seq<seq<nat>>)
    ensures listing == Listing(files)
  {
    listing := [];
    for txq := 0 to |files|
      invariant listing == Listing(files[..txq])
    {
      var cpus, disabled := MaskToCpus(ParseMask(files[txq]));
      listing := listing + [cpus];
      assert files[..txq + 1][..txq] == files[..txq];
    }
    assert files[..|files|] == files;
  }

  /** Listing after the set-up shows queue q on CPU q alone, exactly for the queues up to 62. */
  method SetupThenList(files: array<string>, disable: bool) returns (listing: seq<seq<nat>>)
    modifies files
    ensures |listing| == files.Length
    ensures disable ==> forall q :: 0 <= q < |listing| ==> listing[q] == []
    ensures !disable ==> forall q :: 0 <= q < |listing| ==> (listing[q] == [q] <==> q <= 62)
  {
    Setup1to1(files, disable);
    listing := ListSetup(files[..]);
    ZeroIsDisabled();
    forall q | 0 <= q < |listing|
      ensures if disable then listing[q] == [] else (listing[q] == [q] <==> q <= 62)
    {
      ListingAt(files[..], q);
      CpuRoundTrip(q);
    }
  }
}
