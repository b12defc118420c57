/**
 What the checks of the sink mean over whole runs of packets: counting adjacent
 descents decides global order, wraps and losses raise no false alarm, and at
 level 3 a run goes on exactly as long as nothing is wrong.
 */
module Streams {
  import opened Wire
  import opened Sink
  import opened Flood

  // ------------------------------------------------------------------
  // Runs at levels 1 and 2, where the process never exits

  function Run(s: Stats, check: int, pkts: seq<seq<byte>>): Stats {
    if pkts == [] then s
    else Checked(Run(s, check, pkts[..|pkts| - 1]), check, pkts[|pkts| - 1])
  }

  /** The packets that are long enough to be checked. */
  function Long(pkts: seq<seq<byte>>): seq<seq<byte>> {
    if pkts == [] then []
    else
      var p := pkts[|pkts| - 1];
      if |p| >= HDR then Long(pkts[..|pkts| - 1]) + [p] else Long(pkts[..|pkts| - 1])
  }

  /** The headers of the packets that are long enough to have one. */
  function Heads(pkts: seq<seq<byte>>): seq<Header> {
    if pkts == [] then []
    else
      var p := pkts[|pkts| - 1];
      if |p| >= HDR then Heads(pkts[..|pkts| - 1]) + [Head(p)] else Heads(pkts[..|pkts| - 1])
  }

  function Digests(check: int, pkts: seq<seq<byte>>): seq<Digest> {
    if pkts == [] then []
    else
      var p := pkts[|pkts| - 1];
      if |p| >= HDR then Digests(check, pkts[..|pkts| - 1]) + [DigestOf(check, p)]
      else Digests(check, pkts[..|pkts| - 1])
  }

  lemma {:induction false} DigestsOfLong(check: int, pkts: seq<seq<byte>>)
    ensures |Long(pkts)| == |Heads(pkts)| == |Digests(check, pkts)|
    ensures forall k :: 0 <= k < |Long(pkts)| ==>
      |Long(pkts)[k]| >= HDR && Heads(pkts)[k] == Head(Long(pkts)[k]) &&
      Digests(check, pkts)[k] == DigestOf(check, Long(pkts)[k])
  {
    if pkts != [] {
      DigestsOfLong(check, pkts[..|pkts| - 1]);
    }
  }

  function RunNotes(s: Stats, check: int, ds: seq<Digest>): Stats {
    if ds == [] then s
    else Note(RunNotes(s, check, ds[..|ds| - 1]), check, ds[|ds| - 1])
  }

  lemma RunNotesNext(s: Stats, check: int, ds: seq<Digest>, d: Digest)
    ensures RunNotes(s, check, ds + [d]) == Note(RunNotes(s, check, ds), check, d)
  {
    assert (ds + [d])[..|ds|] == ds;
  }

  lemma {:induction false} RunIsNotes(s: Stats, check: int, pkts: seq<seq<byte>>)
    ensures Run(s, check, pkts) == RunNotes(s, check, Digests(check, pkts))
  {
    if pkts != [] {
      var n := |pkts| - 1;
      RunIsNotes(s, check, pkts[..n]);
      CheckedIsNote(Run(s, check, pkts[..n]), check, pkts[n]);
      if |pkts[n]| >= HDR {
        RunNotesNext(s, check, Digests(check, pkts[..n]), DigestOf(check, pkts[n]));
      }
    }
  }

  function HeadsOf(ds: seq<Digest>): (hs: seq<Header>)
    ensures |hs| == |ds| && forall k :: 0 <= k < |hs| ==> hs[k] == ds[k].head
  {
    seq(|ds|, k requires 0 <= k < |ds| => ds[k].head)
  }

  function LastOf(last: Header, hs: seq<Header>): Header {
    if hs == [] then last else hs[|hs| - 1]
  }

  /** How many of the headers count as out of order against the one before. */
  function Alarms(last: Header, hs: seq<Header>): nat {
    if hs == [] then 0
    else
      var init := hs[..|hs| - 1];
      Alarms(last, init) + Bit(Reordered(LastOf(last, init), hs[|hs| - 1]))
  }

  function Forged(ds: seq<Digest>): nat {
    if ds == [] then 0 else Forged(ds[..|ds| - 1]) + Bit(!ds[|ds| - 1].genuine)
  }

  function TotalDiffering(ds: seq<Digest>): nat {
    if ds == [] then 0 else TotalDiffering(ds[..|ds| - 1]) + ds[|ds| - 1].differing
  }

  lemma {:induction false} NotesAddUp(s: Stats, check: int, ds: seq<Digest>)
    requires check <= 2
    ensures RunNotes(s, check, ds) == Stats(LastOf(s.last, HeadsOf(ds)), s.ooo + Alarms(s.last, HeadsOf(ds)),
                                            s.badMagic + Forged(ds), s.badRepeat + TotalDiffering(ds))
  {
    if ds != [] {
      var n := |ds| - 1;
      NotesAddUp(s, check, ds[..n]);
      assert HeadsOf(ds)[..n] == HeadsOf(ds[..n]);
    }
  }

  /** The counters of levels 1 and 2 after a run. */
  lemma RunCounts(s: Stats, check: int, pkts: seq<seq<byte>>)
    requires check <= 2
    ensures var ds := Digests(check, pkts);
      Run(s, check, pkts) == Stats(LastOf(s.last, Heads(pkts)), s.ooo + Alarms(s.last, Heads(pkts)),
                                   s.badMagic + Forged(ds), s.badRepeat + TotalDiffering(ds))
  {
    var ds := Digests(check, pkts);
    RunIsNotes(s, check, pkts);
    NotesAddUp(s, check, ds);
    HeadsOfDigests(check, pkts);
  }

  /** Each digest of a forged packet counts once. */
  lemma {:induction false} ForgedIsCount(ds: seq<Digest>)
    ensures Forged(ds) == |set k: nat | k < |ds| && !ds[k].genuine|
  {
    if ds != [] {
      var n := |ds| - 1;
      var all, init := set k: nat | k < |ds| && !ds[k].genuine, set k: nat | k < n && !ds[..n][k].genuine;
      ForgedIsCount(ds[..n]);
      assert all == if ds[n].genuine then init else init + {n};
    }
  }

  /** The differing headers of a run are those of its packets together. */
  lemma {:induction false} DifferingAddsUp(ds: seq<Digest>, es: seq<Digest>)
    ensures forall d :: TotalDiffering([d]) == d.differing
    ensures TotalDiffering(ds + es) == TotalDiffering(ds) + TotalDiffering(es)
  {
    if es == [] {
      assert ds + es == ds;
    } else {
      DifferingAddsUp(ds, es[..|es| - 1]);
      assert (ds + es)[..|ds + es| - 1] == ds + es[..|es| - 1];
    }
  }

  // ------------------------------------------------------------------
  // Adjacent comparisons decide the order of the whole stream

  function Descents(hs: seq<Header>): nat {
    if |hs| <= 1 then 0
    else Descents(hs[..|hs| - 1]) + Bit(Precedes(hs[|hs| - 1], hs[|hs| - 2]))
  }

  /** No later packet precedes an earlier one. */
  ghost predicate InOrder(hs: seq<Header>) {
    forall i, j :: 0 <= i < j < |hs| ==> !Precedes(hs[j], hs[i])
  }

  predicate DescendsAt(hs: seq<Header>, k: nat)
    requires 0 < k < |hs|
  {
    Precedes(hs[k], hs[k - 1])
  }

  /** The places at which a packet precedes the one before it. */
  ghost function DescentPlaces(hs: seq<Header>): set<nat> {
    set k: nat | 0 < k < |hs| && DescendsAt(hs, k)
  }

  lemma DescentPlacesNext(hs: seq<Header>)
    requires |hs| > 1
    ensures var n := |hs| - 1;
      DescentPlaces(hs) == DescentPlaces(hs[..n]) + if Precedes(hs[n], hs[n - 1]) then {n} else {}
  {
    var n := |hs| - 1;
    assert forall k: nat :: 0 < k < n ==> DescendsAt(hs, k) == DescendsAt(hs[..n], k);
  }

  /** Each adjacent descent counts once. */
  lemma {:induction false} DescentsIsCount(hs: seq<Header>)
    ensures Descents(hs) == |DescentPlaces(hs)|
  {
    if |hs| > 1 {
      DescentsIsCount(hs[..|hs| - 1]);
      DescentPlacesNext(hs);
    } else {
      assert DescentPlaces(hs) == {};
    }
  }

  lemma {:induction false} NoDescentsIsOrder(hs: seq<Header>)
    ensures Descents(hs) == 0 <==> InOrder(hs)
  {
    if |hs| > 1 {
      var n := |hs| - 1;
      var init := hs[..n];
      NoDescentsIsOrder(init);
      if InOrder(init) && !Precedes(hs[n], hs[n - 1]) {
        OrderNext(hs);
      }
      if InOrder(hs) {
        forall i, j | 0 <= i < j < n
          ensures !Precedes(init[j], init[i])
        {
          assert !Precedes(hs[j], hs[i]);
        }
      }
    }
  }

  /** A last packet that does not precede its neighbour precedes none of the others. */
  lemma OrderNext(hs: seq<Header>)
    requires |hs| > 1 && InOrder(hs[..|hs| - 1]) && !Precedes(hs[|hs| - 1], hs[|hs| - 2])
    ensures InOrder(hs)
  {
    var n := |hs| - 1;
    var init := hs[..n];
    forall i, j | 0 <= i < j < |hs|
      ensures !Precedes(hs[j], hs[i])
    {
      if j < n {
        assert !Precedes(init[j], init[i]);
      } else if i < n - 1 {
        assert !Precedes(init[n - 1], init[i]);
      }
    }
  }

  /** The headers whose order a run is about: a remembered header comes before those of the packets. */
  function Chain(last: Header, hs: seq<Header>): seq<Header> {
    if last.magic == 0 then hs else [last] + hs
  }

  /**
   The descent from a to b raises no alarm: a cannot be compared with, or b comes in the same
   microsecond and a's number is at the floor or above.  Only a's number matters for that.
   */
  predicate Missed(a: Header, b: Header) {
    Precedes(b, a) && (a.magic == 0 || (SameTime(a, b) && a.seqNum >= WRAP_FLOOR))
  }

  function Hidden(hs: seq<Header>): nat {
    if |hs| <= 1 then 0
    else Hidden(hs[..|hs| - 1]) + Bit(Missed(hs[|hs| - 2], hs[|hs| - 1]))
  }

  ghost predicate NoneMissed(hs: seq<Header>) {
    forall k :: 0 < k < |hs| ==> !Missed(hs[k - 1], hs[k])
  }

  /** For all headers: a descent raises an alarm or is missed, and nothing else raises one. */
  lemma {:induction false} AlarmsAndHidden(last: Header, hs: seq<Header>)
    ensures Alarms(last, hs) + Hidden(Chain(last, hs)) == Descents(Chain(last, hs))
  {
    if hs != [] {
      var n := |hs| - 1;
      var chain := Chain(last, hs);
      AlarmsAndHidden(last, hs[..n]);
      assert chain[..|chain| - 1] == Chain(last, hs[..n]);
      assert |chain| >= 2 ==> chain[|chain| - 2] == LastOf(last, hs[..n]);
    }
  }

  predicate MissedAt(hs: seq<Header>, k: nat)
    requires 0 < k < |hs|
  {
    Missed(hs[k - 1], hs[k])
  }

  ghost function MissedPlaces(hs: seq<Header>): set<nat> {
    set k: nat | 0 < k < |hs| && MissedAt(hs, k)
  }

  lemma MissedPlacesNext(hs: seq<Header>)
    requires |hs| > 1
    ensures var n := |hs| - 1;
      MissedPlaces(hs) == MissedPlaces(hs[..n]) + if Missed(hs[n - 1], hs[n]) then {n} else {}
  {
    var n := |hs| - 1;
    assert forall k: nat :: 0 < k < n ==> MissedAt(hs, k) == MissedAt(hs[..n], k);
  }

  /** Each missed descent counts once. */
  lemma {:induction false} HiddenIsCount(hs: seq<Header>)
    ensures Hidden(hs) == |MissedPlaces(hs)|
  {
    if |hs| > 1 {
      HiddenIsCount(hs[..|hs| - 1]);
      MissedPlacesNext(hs);
    } else {
      assert MissedPlaces(hs) == {};
    }
  }

  lemma {:induction false} HiddenZero(hs: seq<Header>)
    ensures Hidden(hs) == 0 <==> NoneMissed(hs)
  {
    if |hs| > 1 {
      var n := |hs| - 1;
      HiddenZero(hs[..n]);
      assert hs[..n][n - 1] == hs[n - 1];
      if NoneMissed(hs[..n]) && !Missed(hs[n - 1], hs[n]) {
        forall k | 0 < k < |hs|
          ensures !Missed(hs[k - 1], hs[k])
        {
          assert k < n ==> !Missed(hs[..n][k - 1], hs[..n][k]);
        }
      }
      if NoneMissed(hs) {
        forall k | 0 < k < n
          ensures !Missed(hs[..n][k - 1], hs[..n][k])
        {
          assert !Missed(hs[k - 1], hs[k]);
        }
      }
    }
  }

  /**
   What the out-of-order count of levels 1 and 2 says of any packets: it grows by the adjacent
   descents but for the missed ones, is exact exactly when none is missed, and passes a stream
   that is out of order exactly when all of its descents are missed.
   */
  lemma AdjacentDecidesOrder(s: Stats, check: int, pkts: seq<seq<byte>>)
    requires check <= 2
    ensures var hs := Chain(s.last, Heads(pkts)); var grown := Run(s, check, pkts).ooo - s.ooo;
      && grown == Descents(hs) - Hidden(hs) == |DescentPlaces(hs)| - |MissedPlaces(hs)|
      && (grown == Descents(hs) <==> NoneMissed(hs))
      && (NoneMissed(hs) ==> (grown == 0 <==> InOrder(hs)))
      && (grown == 0 && !InOrder(hs) <==> 0 < Descents(hs) == Hidden(hs))
  {
    var hs := Chain(s.last, Heads(pkts));
    RunCounts(s, check, pkts);
    AlarmsAndHidden(s.last, Heads(pkts));
    HiddenZero(hs);
    NoDescentsIsOrder(hs);
    DescentsIsCount(hs);
    HiddenIsCount(hs);
  }

  /** Below the wrap floor no descent of headers with a magic number is missed. */
  lemma BelowFloorNoneMissed(last: Header, hs: seq<Header>)
    requires last.magic == 0 || last.seqNum < WRAP_FLOOR
    requires forall k :: 0 <= k < |hs| ==> hs[k].magic != 0 && hs[k].seqNum < WRAP_FLOOR
    ensures NoneMissed(Chain(last, hs))
  {
  }

  /** From a number at the floor or above, a step down within one microsecond goes unseen. */
  lemma SwapAboveFloorUnseen(last: Header, a: Header, b: Header)
    requires last.magic == 0 && SameTime(a, b) && a.seqNum >= WRAP_FLOOR && b.seqNum < a.seqNum
    ensures !InOrder([a, b]) && Alarms(last, [a, b]) == 0
  {
    assert [a, b][..1] == [a];
    assert Alarms(last, [a]) == 0;
    assert Precedes([a, b][1], [a, b][0]);
  }

  // ------------------------------------------------------------------
  // Packets of the flood sender

  ghost predicate NotLater(a: Reading, b: Reading) {
    a.sec < b.sec || (a.sec == b.sec && a.nsec <= b.nsec)
  }

  /** A clock that never goes back, with normalised readings whose seconds fit 32 bits. */
  ghost predicate SaneClock(clock: Clock) {
    && (forall n: nat :: clock(n).sec < TWO32 && clock(n).nsec < 1_000_000_000)
    && (forall m: nat, n: nat :: m <= n ==> NotLater(clock(m), clock(n)))
  }

  /** The header of the n-th packet that was filled. */
  function SentHeader(clock: Clock, n: nat): Header {
    Stamped(n, clock(n))
  }

  /** The packets delivered are those sent under the numbers idx, in this order. */
  ghost predicate Delivery(pkts: seq<seq<byte>>, clock: Clock, msgSz: nat, idx: seq<nat>) {
    && |pkts| == |idx|
    && forall k :: 0 <= k < |pkts| ==> pkts[k] == Payload(true, idx[k], clock(idx[k]), msgSz)
  }

  function SentHeaders(clock: Clock, idx: seq<nat>): seq<Header> {
    seq(|idx|, k requires 0 <= k < |idx| => SentHeader(clock, idx[k]))
  }

  lemma TiledHeader(b: seq<byte>, n: nat, k: nat)
    requires |b| == HDR && HDR * k + HDR <= n
    ensures HeaderAt(Tile(b, n), k) == b
  {
    forall j | 0 <= j < HDR
      ensures HeaderAt(Tile(b, n), k)[j] == b[j]
    {
      assert (HDR * k + j) % HDR == j;
    }
  }

  /** Every full header of a tiled packet is the one that was tiled. */
  lemma TiledPacket(h: Header, msgSz: nat)
    requires msgSz >= HDR
    ensures var data := Tile(Encode(h), msgSz);
      && Head(data) == h
      && Differing(data, msgSz / HDR) == 0
      && forall k :: 0 <= k < msgSz / HDR ==> HeaderAt(data, k) == HeaderAt(data, 0)
  {
    var b := Encode(h);
    var data := Tile(b, msgSz);
    forall k | 0 <= k < msgSz / HDR
      ensures HeaderAt(data, k) == b
    {
      TiledHeader(b, msgSz, k);
    }
    TiledHeader(b, msgSz, 0);
    DifferingZero(data, msgSz / HDR);
    DecodeEncode(h);
  }

  /** Writer/checker round trip: a filled packet passes the magic and repetition checks at any level. */
  lemma FilledPacketIsClean(s: Stats, check: int, sequence: nat, ts: Reading, msgSz: nat)
    ensures var t := Checked(s, check, Payload(true, sequence, ts, msgSz));
      && t.badMagic == s.badMagic && t.badRepeat == s.badRepeat
      && t.last == if msgSz >= HDR then Stamped(sequence, ts) else s.last
  {
    if msgSz >= HDR {
      SentDigest(check, sequence, ts, msgSz);
    }
    CheckedIsNote(s, check, Payload(true, sequence, ts, msgSz));
  }

  lemma SentDigest(check: int, sequence: nat, ts: Reading, msgSz: nat)
    requires msgSz >= HDR
    ensures DigestOf(check, Payload(true, sequence, ts, msgSz)) == Digest(Stamped(sequence, ts), true, 0)
  {
    TiledPacket(Stamped(sequence, ts), msgSz);
  }

  function SentDigests(clock: Clock, idx: seq<nat>): (ds: seq<Digest>)
    ensures |ds| == |idx| && forall k :: 0 <= k < |ds| ==> ds[k] == Digest(SentHeader(clock, idx[k]), true, 0)
  {
    if idx == [] then []
    else SentDigests(clock, idx[..|idx| - 1]) + [Digest(SentHeader(clock, idx[|idx| - 1]), true, 0)]
  }

  /** What the sink sees of a delivery: the sent headers, all genuine and repeated faithfully. */
  lemma {:induction false} DeliverySeen(pkts: seq<seq<byte>>, check: int, clock: Clock, msgSz: nat, idx: seq<nat>)
    requires Delivery(pkts, clock, msgSz, idx) && msgSz >= HDR
    ensures Digests(check, pkts) == SentDigests(clock, idx)
  {
    if pkts != [] {
      var n := |pkts| - 1;
      DeliverySeen(pkts[..n], check, clock, msgSz, idx[..n]);
      SentDigest(check, idx[n], clock(idx[n]), msgSz);
      assert pkts == pkts[..n] + [pkts[n]];
      DigestsNext(check, pkts[..n], pkts[n]);
    }
  }

  lemma HeadsOfDelivery(pkts: seq<seq<byte>>, check: int, clock: Clock, msgSz: nat, idx: seq<nat>)
    requires Delivery(pkts, clock, msgSz, idx) && msgSz >= HDR
    ensures Heads(pkts) == SentHeaders(clock, idx)
  {
    DeliverySeen(pkts, check, clock, msgSz, idx);
    HeadsOfDigests(check, pkts);
    assert HeadsOf(SentDigests(clock, idx)) == SentHeaders(clock, idx);
  }

  lemma HeadsOfDigests(check: int, pkts: seq<seq<byte>>)
    ensures Heads(pkts) == HeadsOf(Digests(check, pkts))
  {
    DigestsOfLong(check, pkts);
  }

  lemma {:induction false} NothingForged(ds: seq<Digest>)
    requires forall k :: 0 <= k < |ds| ==> ds[k].genuine && ds[k].differing == 0
    ensures Forged(ds) == 0 && TotalDiffering(ds) == 0
  {
    if ds != [] {
      NothingForged(ds[..|ds| - 1]);
    }
  }

  lemma StampsInOrder(clock: Clock, m: nat, n: nat)
    requires SaneClock(clock) && m <= n
    ensures var a, b := SentHeader(clock, m), SentHeader(clock, n);
      a.sec < b.sec || (a.sec == b.sec && a.usec <= b.usec)
  {
    assert NotLater(clock(m), clock(n));
    assert clock(m).sec < TWO32 && clock(n).sec < TWO32;
    assert clock(m).nsec / 1000 < TWO32 && clock(n).nsec / 1000 < TWO32;
  }

  /** What the sink remembers is nothing, or the header sent under this number. */
  ghost predicate Remembers(last: Header, clock: Clock, prior: seq<nat>) {
    |prior| <= 1 && if prior == [] then last.magic == 0 else last == SentHeader(clock, prior[0])
  }

  /** Packet n is taken for one that was overtaken by packet m. */
  predicate LooksOvertaken(clock: Clock, m: nat, n: nat) {
    if SameTime(SentHeader(clock, m), SentHeader(clock, n)) then n % TWO32 < m % TWO32 < WRAP_FLOOR
    else n < m
  }

  /** For all numbers: the alarm is right unless both are of one microsecond, where numbers wrap. */
  lemma AlarmOnSent(clock: Clock, m: nat, n: nat)
    requires SaneClock(clock)
    ensures Reordered(SentHeader(clock, m), SentHeader(clock, n)) <==> LooksOvertaken(clock, m, n)
  {
    if m <= n {
      StampsInOrder(clock, m, n);
    } else {
      StampsInOrder(clock, n, m);
    }
  }

  lemma {:induction false} AlarmsOnSent(last: Header, clock: Clock, prior: seq<nat>, idx: seq<nat>)
    requires SaneClock(clock) && Remembers(last, clock, prior)
    ensures Alarms(last, SentHeaders(clock, idx)) == 0 <==> NoneOvertaken(clock, prior + idx)
  {
    if idx != [] {
      var n := |idx| - 1;
      var init := idx[..n];
      AlarmsOnSent(last, clock, prior, init);
      AlarmsNext(last, SentHeaders(clock, init), SentHeader(clock, idx[n]));
      SentHeadersNext(clock, init, idx[n]);
      SplitLast(prior, idx);
      NoneOvertakenNext(clock, prior + init, idx[n]);
      LastAlarm(last, clock, prior, init, idx[n]);
    }
  }

  lemma SplitLast<T>(a: seq<T>, b: seq<T>)
    requires b != []
    ensures b == b[..|b| - 1] + [b[|b| - 1]]
    ensures a + b == a + b[..|b| - 1] + [b[|b| - 1]]
  {
  }

  lemma SentHeadersNext(clock: Clock, init: seq<nat>, n: nat)
    ensures SentHeaders(clock, init + [n]) == SentHeaders(clock, init) + [SentHeader(clock, n)]
  {
  }

  lemma AlarmsNext(last: Header, hs: seq<Header>, h: Header)
    ensures Alarms(last, hs + [h]) == Alarms(last, hs) + Bit(Reordered(LastOf(last, hs), h))
  {
    assert (hs + [h])[..|hs|] == hs;
  }

  /** Whether one more packet of the sender raises the alarm. */
  lemma LastAlarm(last: Header, clock: Clock, prior: seq<nat>, init: seq<nat>, n: nat)
    requires SaneClock(clock) && Remembers(last, clock, prior)
    ensures var all := prior + init;
      Reordered(LastOf(last, SentHeaders(clock, init)), SentHeader(clock, n)) <==>
      all != [] && LooksOvertaken(clock, all[|all| - 1], n)
  {
    var all := prior + init;
    if all != [] {
      assert LastOf(last, SentHeaders(clock, init)) == SentHeader(clock, all[|all| - 1]);
      AlarmOnSent(clock, all[|all| - 1], n);
    }
  }

  ghost predicate NoneOvertaken(clock: Clock, idx: seq<nat>) {
    forall k :: 0 < k < |idx| ==> !LooksOvertaken(clock, idx[k - 1], idx[k])
  }

  lemma NoneOvertakenNext(clock: Clock, init: seq<nat>, n: nat)
    ensures NoneOvertaken(clock, init + [n]) <==>
      NoneOvertaken(clock, init) && (init != [] ==> !LooksOvertaken(clock, init[|init| - 1], n))
  {
    var idx := init + [n];
    if NoneOvertaken(clock, idx) {
      forall k | 0 < k < |init|
        ensures !LooksOvertaken(clock, init[k - 1], init[k])
      {
        assert !LooksOvertaken(clock, idx[k - 1], idx[k]);
      }
      assert init != [] ==> !LooksOvertaken(clock, idx[|init| - 1], idx[|init|]);
    } else {
      var k :| 0 < k < |idx| && LooksOvertaken(clock, idx[k - 1], idx[k]);
      assert k < |init| ==> LooksOvertaken(clock, init[k - 1], init[k]);
    }
  }

  /** The out-of-order count after packets of the sender, under whatever numbers, in whatever order. */
  lemma CountOnDelivery(s: Stats, check: int, pkts: seq<seq<byte>>, clock: Clock, msgSz: nat,
                        prior: seq<nat>, idx: seq<nat>)
    requires check <= 2 && SaneClock(clock) && msgSz >= HDR && Remembers(s.last, clock, prior)
    requires Delivery(pkts, clock, msgSz, idx)
    ensures Run(s, check, pkts).ooo == s.ooo <==> NoneOvertaken(clock, prior + idx)
  {
    HeadsOfDelivery(pkts, check, clock, msgSz, idx);
    RunCounts(s, check, pkts);
    AlarmsOnSent(s.last, clock, prior, idx);
  }

  /** Below the floor, a packet looks overtaken exactly when it was sent earlier. */
  lemma OvertakenMeansSentBefore(clock: Clock, m: nat, n: nat)
    requires m < WRAP_FLOOR && n < WRAP_FLOOR
    ensures LooksOvertaken(clock, m, n) <==> n < m
  {
  }

  ghost predicate Ascending(idx: seq<nat>) {
    forall i, j :: 0 <= i < j < |idx| ==> idx[i] <= idx[j]
  }

  lemma {:induction false} AdjacentAscending(idx: seq<nat>, i: nat, j: nat)
    requires forall k :: 0 < k < |idx| ==> idx[k - 1] <= idx[k]
    requires i <= j < |idx|
    ensures idx[i] <= idx[j]
  {
    if i < j {
      AdjacentAscending(idx, i, j - 1);
    }
  }

  /** Nothing but delivery in send order keeps the out-of-order count, before numbers reach the floor. */
  lemma ReorderingIsDetected(s: Stats, check: int, pkts: seq<seq<byte>>, clock: Clock, msgSz: nat,
                             prior: seq<nat>, idx: seq<nat>)
    requires check <= 2 && SaneClock(clock) && msgSz >= HDR && Remembers(s.last, clock, prior)
    requires Delivery(pkts, clock, msgSz, idx)
    requires forall k :: 0 <= k < |prior + idx| ==> (prior + idx)[k] < WRAP_FLOOR
    ensures Run(s, check, pkts).ooo == s.ooo <==> Ascending(prior + idx)
  {
    var all := prior + idx;
    CountOnDelivery(s, check, pkts, clock, msgSz, prior, idx);
    forall k | 0 < k < |all|
      ensures LooksOvertaken(clock, all[k - 1], all[k]) <==> all[k] < all[k - 1]
    {
      OvertakenMeansSentBefore(clock, all[k - 1], all[k]);
    }
    if NoneOvertaken(clock, all) {
      assert forall k :: 0 < k < |all| ==> !LooksOvertaken(clock, all[k - 1], all[k]);
      forall i, j | 0 <= i < j < |all|
        ensures all[i] <= all[j]
      {
        AdjacentAscending(all, i, j);
      }
    }
  }

  // ------------------------------------------------------------------
  // Loss and wrap-around

  /** How far apart consecutive deliveries may be sent without a false alarm. */
  const WINDOW: nat := TWO32 - WRAP_FLOOR

  /** A later packet is not taken for a reordered one within the window... */
  lemma NoFalseAlarmWithin(clock: Clock, m: nat, n: nat)
    requires SaneClock(clock) && m <= n <= m + WINDOW
    ensures !Reordered(SentHeader(clock, m), SentHeader(clock, n))
  {
    StampsInOrder(clock, m, n);
    WrapStep(m, n - m);
  }

  lemma WrapStep(m: nat, d: nat)
    ensures (m + d) % TWO32 == if m % TWO32 + d % TWO32 < TWO32 then m % TWO32 + d % TWO32
                               else m % TWO32 + d % TWO32 - TWO32
  {
    WrapAdd(d, m);
    WrapAdd(m, d % TWO32);
  }

  /** ...and the window is exact: beyond it some sender position raises a false alarm. */
  lemma WindowIsExact(ts: Reading, d: nat)
    ensures (forall m: nat :: !Reordered(Stamped(m, ts), Stamped(m + d, ts))) <==> d % TWO32 <= 1_294_967_296
  {
    forall m: nat
      ensures Reordered(Stamped(m, ts), Stamped(m + d, ts)) <==>
        m % TWO32 < WRAP_FLOOR && m % TWO32 + d % TWO32 >= TWO32
    {
      WrapStep(m, d);
    }
    if d % TWO32 > WINDOW {
      var m: nat := WRAP_FLOOR - 1;
      assert Reordered(Stamped(m, ts), Stamped(m + d, ts));
    }
  }

  /** No number is further from the one before it than the window. */
  ghost predicate SmallGaps(idx: seq<nat>) {
    forall k :: 0 < k < |idx| ==> idx[k - 1] <= idx[k] <= idx[k - 1] + WINDOW
  }

  lemma SmallGapsOvertakeNone(clock: Clock, idx: seq<nat>)
    requires SaneClock(clock) && SmallGaps(idx)
    ensures NoneOvertaken(clock, idx)
  {
    forall k | 0 < k < |idx|
      ensures !LooksOvertaken(clock, idx[k - 1], idx[k])
    {
      NoFalseAlarmWithin(clock, idx[k - 1], idx[k]);
      AlarmOnSent(clock, idx[k - 1], idx[k]);
    }
  }

  /** Losses, repeats and any number of wraps leave every counter of levels 1 and 2 alone. */
  lemma LossAndWrapAreHarmless(s: Stats, check: int, pkts: seq<seq<byte>>, clock: Clock, msgSz: nat,
                               prior: seq<nat>, idx: seq<nat>)
    requires check <= 2 && SaneClock(clock) && msgSz >= HDR && Remembers(s.last, clock, prior)
    requires Delivery(pkts, clock, msgSz, idx) && SmallGaps(prior + idx)
    ensures Run(s, check, pkts).ooo == s.ooo
    ensures Run(s, check, pkts).badMagic == s.badMagic && Run(s, check, pkts).badRepeat == s.badRepeat
  {
    SmallGapsOvertakeNone(clock, prior + idx);
    CountOnDelivery(s, check, pkts, clock, msgSz, prior, idx);
    DeliverySeen(pkts, check, clock, msgSz, idx);
    RunCounts(s, check, pkts);
    NothingForged(Digests(check, pkts));
  }

  // ------------------------------------------------------------------
  // Level 3: the process exits at the first sign of trouble

  datatype Event = Packet(data: seq<byte>) | InitStats

  datatype Outcome = Exited | Running(stats: Stats)

  /** A run from s: exiting is final, and `init_stats` may come anywhere between packets. */
  function Play(s: Stats, check: int, events: seq<Event>): Outcome {
    if events == [] then Running(s)
    else
      match Play(s, check, events[..|events| - 1])
      case Exited => Exited
      case Running(t) =>
        match events[|events| - 1]
        case InitStats => Running(Stats(t.last, 0, 0, 0))
        case Packet(data) =>
          var u := Checked(t, check, data);
          if check > 2 && !Clean(u) then Exited else Running(u)
  }

  function Packets(events: seq<Event>): seq<seq<byte>> {
    if events == [] then []
    else
      var e := events[|events| - 1];
      if e.Packet? then Packets(events[..|events| - 1]) + [e.data] else Packets(events[..|events| - 1])
  }

  /** The magic is right and every full header repeats the first. */
  ghost predicate Intact(data: seq<byte>) {
    |data| >= HDR &&
    Head(data).magic == WIRE_MAGIC &&
    forall k :: 0 <= k < |data| / HDR ==> HeaderAt(data, k) == HeaderAt(data, 0)
  }

  /** The next number in sequence, sent no earlier. */
  ghost predicate Succeeds(a: Header, b: Header) {
    && b.seqNum == (a.seqNum + 1) % TWO32
    && (a.sec < b.sec || (a.sec == b.sec && a.usec <= b.usec))
  }

  ghost predicate Flawless(pkts: seq<seq<byte>>) {
    && (forall k :: 0 <= k < |pkts| ==> Intact(pkts[k]))
    && (forall k :: 0 < k < |pkts| ==> Succeeds(Head(pkts[k - 1]), Head(pkts[k])))
  }

  ghost predicate FlawlessDigests(ds: seq<Digest>) {
    && (forall k :: 0 <= k < |ds| ==> Sound(ds[k]))
    && (forall k :: 0 < k < |ds| ==> Succeeds(ds[k - 1].head, ds[k].head))
  }

  predicate Sound(d: Digest) {
    d.genuine && d.differing == 0 && d.head.magic != 0
  }

  lemma IntactIsSound(check: int, data: seq<byte>)
    requires check >= 2 && |data| >= HDR
    ensures Intact(data) <==> Sound(DigestOf(check, data))
    ensures DigestOf(check, data).genuine ==> DigestOf(check, data).head.magic != 0
  {
    DifferingZero(data, |data| / HDR);
  }

  lemma FlawlessIsSound(check: int, pkts: seq<seq<byte>>)
    requires check >= 2
    ensures Flawless(Long(pkts)) <==> FlawlessDigests(Digests(check, pkts))
  {
    var long, ds := Long(pkts), Digests(check, pkts);
    DigestsOfLong(check, pkts);
    forall k | 0 <= k < |long|
      ensures Intact(long[k]) <==> Sound(ds[k])
      ensures Head(long[k]) == ds[k].head
    {
      IntactIsSound(check, long[k]);
    }
    SameFlaws(long, ds);
  }

  lemma SameFlaws(long: seq<seq<byte>>, ds: seq<Digest>)
    requires |long| == |ds| && forall k :: 0 <= k < |long| ==> |long[k]| >= HDR
    requires forall k :: 0 <= k < |long| ==> (Intact(long[k]) <==> Sound(ds[k])) && Head(long[k]) == ds[k].head
    ensures Flawless(long) <==> FlawlessDigests(ds)
  {
    forall k | 0 < k < |long|
      ensures Succeeds(Head(long[k - 1]), Head(long[k])) <==> Succeeds(ds[k - 1].head, ds[k].head)
    {
      assert Head(long[k - 1]) == ds[k - 1].head && Head(long[k]) == ds[k].head;
    }
  }

  /** One more packet, checked at level 3 with clean counters. */
  lemma LevelThreeStep(t: Stats, check: int, d: Digest)
    requires check > 2 && Clean(t) && (d.genuine ==> d.head.magic != 0)
    ensures Clean(Note(t, check, d)) <==> Sound(d) && (t.last.magic != 0 ==> Succeeds(t.last, d.head))
  {
  }

  lemma FlawlessNext(ds: seq<Digest>, d: Digest)
    ensures FlawlessDigests(ds + [d]) <==>
      FlawlessDigests(ds) && Sound(d) && (ds != [] ==> Succeeds(ds[|ds| - 1].head, d.head))
  {
    var all := ds + [d];
    assert all[|ds|] == d;
    assert forall k :: 0 <= k < |ds| ==> all[k] == ds[k];
    if FlawlessDigests(all) {
      assert Sound(all[|ds|]);
      assert ds != [] ==> Succeeds(all[|ds| - 1].head, all[|ds|].head);
      forall k | 0 <= k < |ds|
        ensures Sound(ds[k])
      {
        assert Sound(all[k]);
      }
      forall k | 0 < k < |ds|
        ensures Succeeds(ds[k - 1].head, ds[k].head)
      {
        assert Succeeds(all[k - 1].head, all[k].head);
      }
    }
  }

  /** What a level-3 run looks like after its events, seen through the digests of its packets. */
  ghost predicate LevelThreeState(r: Outcome, ds: seq<Digest>) {
    && (r.Running? <==> FlawlessDigests(ds))
    && (r.Running? ==> Clean(r.stats) && r.stats.last == if ds == [] then NO_HEADER else ds[|ds| - 1].head)
  }

  lemma LevelThreeNote(t: Stats, check: int, ds: seq<Digest>, d: Digest)
    requires check > 2 && LevelThreeState(Running(t), ds) && (d.genuine ==> d.head.magic != 0)
    ensures var u := Note(t, check, d);
      LevelThreeState(if Clean(u) then Running(u) else Exited, ds + [d])
  {
    FlawlessNext(ds, d);
    assert ds != [] ==> Sound(ds[|ds| - 1]);
    LevelThreeStep(t, check, d);
  }

  lemma {:induction false} LevelThreeDigests(check: int, events: seq<Event>)
    requires check > 2
    ensures LevelThreeState(Play(Stats(NO_HEADER, 0, 0, 0), check, events), Digests(check, Packets(events)))
  {
    if events != [] {
      var n := |events| - 1;
      LevelThreeDigests(check, events[..n]);
      var r := Play(Stats(NO_HEADER, 0, 0, 0), check, events[..n]);
      var e := events[n];
      if e.Packet? {
        assert Packets(events) == Packets(events[..n]) + [e.data];
        DigestsNext(check, Packets(events[..n]), e.data);
        if r.Running? {
          CheckedIsNote(r.stats, check, e.data);
        }
        if |e.data| >= HDR {
          var ds, d := Digests(check, Packets(events[..n])), DigestOf(check, e.data);
          IntactIsSound(check, e.data);
          if r.Running? {
            LevelThreeNote(r.stats, check, ds, d);
          } else {
            FlawlessNext(ds, d);
          }
        }
      }
    }
  }

  lemma DigestsNext(check: int, pkts: seq<seq<byte>>, p: seq<byte>)
    ensures Digests(check, pkts + [p]) ==
      if |p| >= HDR then Digests(check, pkts) + [DigestOf(check, p)] else Digests(check, pkts)
  {
    assert (pkts + [p])[..|pkts|] == pkts;
  }

  /**
   A level-3 run goes on exactly when all its packets are intact and each long one is the
   successor of the long one before it, counter resets notwithstanding.
   */
  lemma LevelThreeDecides(check: int, events: seq<Event>)
    requires check > 2
    ensures Play(Stats(NO_HEADER, 0, 0, 0), check, events).Running? <==> Flawless(Long(Packets(events)))
  {
    LevelThreeDigests(check, events);
    FlawlessIsSound(check, Packets(events));
  }

  lemma {:induction false} NumbersAdvance(hs: seq<Header>, k: nat)
    requires k < |hs| && forall i :: 0 < i < |hs| ==> Succeeds(hs[i - 1], hs[i])
    ensures hs[k].seqNum == (hs[0].seqNum + k) % TWO32
  {
    if k > 0 {
      NumbersAdvance(hs, k - 1);
      assert Succeeds(hs[k - 1], hs[k]);
      WrapAdd(hs[0].seqNum + (k - 1), 1);
    }
  }

  /** In a level-3 run that goes on, the k-th number is the first plus k, wrapping at 2^32. */
  lemma LevelThreeNumbers(check: int, events: seq<Event>, k: nat)
    requires check > 2 && Play(Stats(NO_HEADER, 0, 0, 0), check, events).Running?
    requires k < |Heads(Packets(events))|
    ensures Heads(Packets(events))[k].seqNum == (Heads(Packets(events))[0].seqNum + k) % TWO32
  {
    LevelThreeSucceeds(check, events);
    NumbersAdvance(Heads(Packets(events)), k);
  }

  /** In such a run, each head is the successor of the one before. */
  lemma LevelThreeSucceeds(check: int, events: seq<Event>)
    requires check > 2 && Play(Stats(NO_HEADER, 0, 0, 0), check, events).Running?
    ensures var hs := Heads(Packets(events)); forall i :: 0 < i < |hs| ==> Succeeds(hs[i - 1], hs[i])
  {
    var hs, ds := Heads(Packets(events)), Digests(check, Packets(events));
    LevelThreeDigests(check, events);
    DigestsOfLong(check, Packets(events));
    assert FlawlessDigests(ds) && |hs| == |ds|;
    forall i | 0 < i < |hs|
      ensures Succeeds(hs[i - 1], hs[i])
    {
      assert Succeeds(ds[i - 1].head, ds[i].head);
      assert hs[i - 1] == ds[i - 1].head && hs[i] == ds[i].head;
    }
  }

  /** Number n comes right after number m on a counter that wraps. */
  predicate NextNumber(m: nat, n: nat) {
    n % TWO32 == (m + 1) % TWO32
  }

  lemma SentSuccessor(clock: Clock, m: nat, n: nat)
    requires SaneClock(clock) && m <= n
    ensures Succeeds(SentHeader(clock, m), SentHeader(clock, n)) <==> NextNumber(m, n)
  {
    StampsInOrder(clock, m, n);
    WrapAdd(m, 1);
  }

  /** Level 3 on packets of the flood sender, delivered in send order: no gap, or an exit. */
  lemma LevelThreeOnDelivery(check: int, events: seq<Event>, clock: Clock, msgSz: nat, idx: seq<nat>)
    requires check > 2 && SaneClock(clock) && msgSz >= HDR
    requires Delivery(Packets(events), clock, msgSz, idx)
    requires forall k :: 0 < k < |idx| ==> idx[k - 1] <= idx[k]
    ensures Play(Stats(NO_HEADER, 0, 0, 0), check, events).Running? <==>
      forall k :: 0 < k < |idx| ==> NextNumber(idx[k - 1], idx[k])
  {
    LevelThreeDigests(check, events);
    DeliverySeen(Packets(events), check, clock, msgSz, idx);
    ConsecutiveDigests(clock, idx);
  }

  lemma ConsecutiveDigests(clock: Clock, idx: seq<nat>)
    requires SaneClock(clock) && forall k :: 0 < k < |idx| ==> idx[k - 1] <= idx[k]
    ensures FlawlessDigests(SentDigests(clock, idx)) <==>
      forall k :: 0 < k < |idx| ==> NextNumber(idx[k - 1], idx[k])
  {
    var ds := SentDigests(clock, idx);
    forall k | 0 < k < |idx|
      ensures Succeeds(ds[k - 1].head, ds[k].head) <==> NextNumber(idx[k - 1], idx[k])
    {
      SentSuccessor(clock, idx[k - 1], idx[k]);
    }
    ConsecutiveKeys(ds, idx);
  }

  lemma ConsecutiveKeys(ds: seq<Digest>, idx: seq<nat>)
    requires |ds| == |idx| && forall k :: 0 <= k < |ds| ==> Sound(ds[k])
    requires forall k :: 0 < k < |idx| ==> (Succeeds(ds[k - 1].head, ds[k].head) <==> NextNumber(idx[k - 1], idx[k]))
    ensures FlawlessDigests(ds) <==> forall k :: 0 < k < |idx| ==> NextNumber(idx[k - 1], idx[k])
  {
    if FlawlessDigests(ds) {
      forall k | 0 < k < |idx|
        ensures NextNumber(idx[k - 1], idx[k])
      {
        assert Succeeds(ds[k - 1].head, ds[k].head);
      }
    }
  }
}
