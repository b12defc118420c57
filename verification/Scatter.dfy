/**
 Memory in allocated blocks, and io-vectors over it: the bytes of a scattered packet, in order,
 and the address of each of them.
 */
module Scatter {
  import opened Wire

  type Memory = seq<seq<byte>>

  datatype Address = Address(block: nat, at: nat)

  /** An io-vector entry: an offset into one of several allocated blocks, and a length. */
  datatype Iovec = Iovec(block: nat, base: nat, len: nat)

  /** How many bytes the segments have together. */
  function Total(iov: seq<Iovec>): nat {
    if iov == [] then 0 else Total(iov[..|iov| - 1]) + iov[|iov| - 1].len
  }

  /** The position at which segment i starts. */
  function Start(iov: seq<Iovec>, i: nat): nat
    requires i <= |iov|
  {
    Total(iov[..i])
  }

  lemma {:induction false} StartBelow(iov: seq<Iovec>, i: nat)
    requires i <= |iov|
    ensures Start(iov, i) <= Total(iov)
  {
    if i == |iov| {
      assert iov[..i] == iov;
    } else {
      var init := iov[..|iov| - 1];
      StartBelow(init, i);
      assert init[..i] == iov[..i];
    }
  }

  lemma StartNext(iov: seq<Iovec>, i: nat)
    requires i < |iov|
    ensures Start(iov, i + 1) == Start(iov, i) + iov[i].len <= Total(iov)
    ensures i + 1 == |iov| ==> Start(iov, i + 1) == Total(iov)
  {
    assert iov[..i + 1][..i] == iov[..i];
    assert i + 1 == |iov| ==> iov[..i + 1] == iov;
    StartBelow(iov, i + 1);
  }

  predicate Mapped(mem: Memory, a: Address) {
    a.block < |mem| && a.at < |mem[a.block]|
  }

  function ByteAt(mem: Memory, a: Address): byte
    requires Mapped(mem, a)
  {
    mem[a.block][a.at]
  }

  /** `memcpy` of n bytes out of memory. */
  function Load(mem: Memory, block: nat, at: nat, n: nat): (data: seq<byte>)
    requires block < |mem| && at + n <= |mem[block]|
    ensures |data| == n && forall j :: 0 <= j < n ==> data[j] == ByteAt(mem, Address(block, at + j))
  {
    mem[block][at..at + n]
  }

  ghost predicate InMemory(mem: Memory, iov: seq<Iovec>) {
    forall i :: 0 <= i < |iov| ==> iov[i].block < |mem| && iov[i].base + iov[i].len <= |mem[iov[i].block]|
  }

  /** The bytes of the segments, in order: what the kernel scatters and the checker is to see. */
  ghost function Flat(mem: Memory, iov: seq<Iovec>): (data: seq<byte>)
    requires InMemory(mem, iov)
    ensures |data| == Total(iov)
  {
    if iov == [] then []
    else
      var e := iov[|iov| - 1];
      Flat(mem, iov[..|iov| - 1]) + Load(mem, e.block, e.base, e.len)
  }

  /** Where the byte at position p lies. */
  function AddressOf(iov: seq<Iovec>, p: nat): Address
    requires p < Total(iov)
  {
    var init, e := iov[..|iov| - 1], iov[|iov| - 1];
    if p < Total(init) then AddressOf(init, p) else Address(e.block, e.base + (p - Total(init)))
  }

  lemma {:induction false} FlatAt(mem: Memory, iov: seq<Iovec>, p: nat)
    requires InMemory(mem, iov) && p < Total(iov)
    ensures Mapped(mem, AddressOf(iov, p)) && Flat(mem, iov)[p] == ByteAt(mem, AddressOf(iov, p))
  {
    var init := iov[..|iov| - 1];
    if p < Total(init) {
      FlatAt(mem, init, p);
    }
  }

  /** Byte q of segment i. */
  lemma {:induction false} AddressIn(iov: seq<Iovec>, i: nat, q: nat)
    requires i < |iov| && q < iov[i].len
    ensures Start(iov, i) + q < Total(iov)
    ensures AddressOf(iov, Start(iov, i) + q) == Address(iov[i].block, iov[i].base + q)
  {
    var init := iov[..|iov| - 1];
    if i < |init| {
      AddressIn(init, i, q);
      assert init[..i] == iov[..i];
    }
  }

  predicate Within(e: Iovec, a: Address) {
    e.block == a.block && e.base <= a.at < e.base + e.len
  }

  /** Every position lies in some segment. */
  lemma {:induction false} AddressSomewhere(iov: seq<Iovec>, p: nat) returns (i: nat)
    requires p < Total(iov)
    ensures i < |iov| && Within(iov[i], AddressOf(iov, p))
  {
    var init := iov[..|iov| - 1];
    if p < Total(init) {
      i := AddressSomewhere(init, p);
    } else {
      i := |iov| - 1;
    }
  }

  // ------------------------------------------------------------------
  // Two kinds of vectors

  /** Each segment begins where the one before it ends. */
  ghost predicate Abutting(iov: seq<Iovec>) {
    forall i :: 0 < i < |iov| ==>
      iov[i].block == iov[i - 1].block && iov[i].base == iov[i - 1].base + iov[i - 1].len
  }

  lemma {:induction false} AbuttingBase(iov: seq<Iovec>, i: nat)
    requires Abutting(iov) && i < |iov|
    ensures iov[i].block == iov[0].block && iov[i].base == iov[0].base + Start(iov, i)
  {
    if i > 0 {
      AbuttingBase(iov, i - 1);
      StartNext(iov, i - 1);
    }
  }

  lemma {:induction false} AbuttingAddress(iov: seq<Iovec>, p: nat)
    requires Abutting(iov) && p < Total(iov)
    ensures AddressOf(iov, p) == Address(iov[0].block, iov[0].base + p)
  {
    var n := |iov| - 1;
    if p < Total(iov[..n]) {
      AbuttingAddress(iov[..n], p);
    } else {
      AbuttingBase(iov, n);
    }
  }

  /** Abutting segments are one stretch of memory. */
  lemma AbuttingFlat(mem: Memory, iov: seq<Iovec>)
    requires Abutting(iov) && InMemory(mem, iov) && iov != []
    ensures iov[0].block < |mem| && iov[0].base + Total(iov) <= |mem[iov[0].block]|
    ensures Flat(mem, iov) == Load(mem, iov[0].block, iov[0].base, Total(iov))
  {
    var flat, block, base := Flat(mem, iov), iov[0].block, iov[0].base;
    AbuttingInside(mem, iov);
    forall p: nat | p < |flat|
      ensures flat[p] == mem[block][base + p]
    {
      AbuttingByte(mem, iov, p);
    }
    assert Load(mem, block, base, |flat|) == mem[block][base..base + |flat|];
  }

  lemma AbuttingInside(mem: Memory, iov: seq<Iovec>)
    requires Abutting(iov) && InMemory(mem, iov) && iov != []
    ensures iov[0].block < |mem| && iov[0].base + Total(iov) <= |mem[iov[0].block]|
  {
    AbuttingBase(iov, |iov| - 1);
    StartNext(iov, |iov| - 1);
  }

  lemma AbuttingByte(mem: Memory, iov: seq<Iovec>, p: nat)
    requires Abutting(iov) && InMemory(mem, iov) && p < Total(iov)
    ensures Mapped(mem, Address(iov[0].block, iov[0].base + p))
    ensures Flat(mem, iov)[p] == mem[iov[0].block][iov[0].base + p]
  {
    FlatAt(mem, iov, p);
    AbuttingAddress(iov, p);
  }

  /** No segment begins, or goes on, right behind another one. */
  ghost predicate Detached(iov: seq<Iovec>) {
    forall i, j :: 0 <= i < |iov| && 0 <= j < |iov| ==> !Within(iov[j], BehindEnd(iov[i]))
  }

  function BehindEnd(e: Iovec): Address {
    Address(e.block, e.base + e.len)
  }
}
