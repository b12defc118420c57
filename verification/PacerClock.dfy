/**
 The pacer's clock: absolute wake-up times that do not drift, the wake-up latency in
 microseconds, and the statistics over it.  The sleep and the clock are parameters.
 */
module PacerClock {
  import opened Wire

  const USEC_PER_SEC: int := 1_000_000
  const NSEC_PER_SEC: int := 1_000_000_000

  /** A `struct timespec` as a value. */
  datatype Time = Time(sec: int, nsec: int) {
    function Total(): int {
      sec * NSEC_PER_SEC + nsec
    }

    predicate Normal() {
      0 <= nsec < NSEC_PER_SEC
    }
  }

  /** The normalised time with this many nanoseconds. */
  function TimeOf(ns: int): (t: Time)
    ensures t.Normal() && t.Total() == ns
  {
    Time(ns / NSEC_PER_SEC, ns % NSEC_PER_SEC)
  }

  lemma NormalIsUnique(t: Time)
    requires t.Normal()
    ensures t == TimeOf(t.Total())
  {
  }

  /** A `struct timespec` that is updated in place. */
  class Timespec {
    var sec: int
    var nsec: int

    constructor (t: Time)
      ensures Value() == t
    {
      sec, nsec := t.sec, t.nsec;
    }

    function Value(): Time
      reads this
    {
      Time(sec, nsec)
    }

    /** `tsnorm`: carries whole seconds over; the time itself stays. */
    method Norm()
      requires nsec >= 0
      modifies this
      ensures Value().Normal() && Value().Total() == old(Value()).Total()
    {
      while nsec >= NSEC_PER_SEC
        invariant nsec >= 0 && Value().Total() == old(Value()).Total()
      {
        nsec := nsec - NSEC_PER_SEC;
        sec := sec + 1;
      }
    }

    /** Moves the time on by an interval and normalises it. */
    method Advance(interval: Time)
      requires nsec >= 0 && interval.nsec >= 0
      modifies this
      ensures Value().Normal() && Value().Total() == old(Value()).Total() + interval.Total()
    {
      sec := sec + interval.sec;
      nsec := nsec + interval.nsec;
      Norm();
    }
  }

  // ------------------------------------------------------------------
  // Latency

  /** The cast `(int)` of a wider integer. */
  function CInt(x: int): int {
    var low := x % TWO32;
    if low < TWO31 then low else low - TWO32
  }

  /** Division in C: the quotient is cut off towards zero. */
  function CDiv(a: int, b: int): int
    requires b > 0
  {
    if a >= 0 then a / b else -((-a) / b)
  }

  /** The quotient's remainder is smaller than the divisor and has the sign of the dividend. */
  lemma CDivTruncates(a: int, b: int)
    requires b > 0
    ensures var q := CDiv(a, b); if a >= 0 then b * q <= a < b * q + b else b * q - b < a <= b * q
  {
    if a < 0 {
      assert -a == b * ((-a) / b) + (-a) % b;
    }
  }

  /** Subtraction of two `int`, wrapping around where C leaves the result undefined. */
  function IntMinus(a: int, b: int): int {
    CInt(a - b)
  }

  /** `calcdiff`: t1 - t2 in microseconds. */
  function CalcDiff(t1: Time, t2: Time): int {
    USEC_PER_SEC * IntMinus(CInt(t1.sec), CInt(t2.sec)) + CDiv(IntMinus(CInt(t1.nsec), CInt(t2.nsec)), 1000)
  }

  /** The subtraction of the seconds does not overflow, so that C defines it. */
  predicate SubtractionDefined(t1: Time, t2: Time) {
    -TWO31 <= CInt(t1.sec) - CInt(t2.sec) < TWO31
  }

  /** Seconds since boot that an `int` can hold. */
  predicate InRange(t: Time) {
    t.Normal() && 0 <= t.sec < TWO31
  }

  /** The true difference in microseconds, rounded down, or up when the nanoseconds borrow. */
  function RoundedDiff(t1: Time, t2: Time): int {
    var ns := t1.Total() - t2.Total();
    if t1.nsec >= t2.nsec then ns / 1000 else -((-ns) / 1000)
  }

  lemma CalcDiffRounds(t1: Time, t2: Time)
    requires InRange(t1) && InRange(t2)
    ensures CalcDiff(t1, t2) == RoundedDiff(t1, t2)
  {
    CalcDiffExact(t1, t2);
  }

  /** The span of 2^32 seconds in which the cast to `int` is faithful to differences. */
  function SpanOf(t: Time): int {
    (t.sec + TWO31) / TWO32
  }

  /** The cast takes off whole spans. */
  lemma CastKeepsPlace(x: int)
    ensures -TWO31 <= CInt(x) < TWO31
    ensures x == CInt(x) + (x + TWO31) / TWO32 * TWO32
  {
    var q, low := x / TWO32, x % TWO32;
    assert x == q * TWO32 + low;
    assert (x + TWO31) / TWO32 == if low < TWO31 then q else q + 1;
  }

  lemma Thousands(a: int, b: int)
    ensures (1000 * a + b) / 1000 == a + b / 1000
  {
  }

  /** A number of seconds that an `int` can hold. */
  predicate FitsInt(x: int) {
    -TWO31 <= x < TWO31
  }

  /** Casting, subtracting and wrapping give the wrapped difference. */
  lemma WrappedDifference(a: int, b: int)
    ensures IntMinus(CInt(a), CInt(b)) == CInt(a - b)
    ensures CInt(a - b) == a - b <==> FitsInt(a - b)
  {
    CastKeepsPlace(a);
    CastKeepsPlace(b);
    SameCast(CInt(a) - CInt(b), a - b, (a + TWO31) / TWO32 - (b + TWO31) / TWO32);
    CastKeepsPlace(a - b);
  }

  lemma SameCast(x: int, y: int, spans: int)
    requires y == x + spans * TWO32
    ensures CInt(x) == CInt(y)
  {
    var q := x / TWO32;
    assert x == q * TWO32 + x % TWO32;
    assert y == (q + spans) * TWO32 + x % TWO32;
  }

  /**
   For normalised times of any size, where the subtraction wraps: the result is right exactly if an
   `int` can hold the difference of the seconds.
   */
  lemma CalcDiffExact(t1: Time, t2: Time)
    requires t1.Normal() && t2.Normal()
    ensures CalcDiff(t1, t2) == RoundedDiff(t1, t2) <==> FitsInt(t1.sec - t2.sec)
  {
    var ds, dn := t1.sec - t2.sec, t1.nsec - t2.nsec;
    WrappedDifference(t1.sec, t2.sec);
    assert CInt(t1.nsec) == t1.nsec && CInt(t2.nsec) == t2.nsec && CInt(dn) == dn;
    assert t1.Total() - t2.Total() == 1000 * (USEC_PER_SEC * ds) + dn;
    Thousands(USEC_PER_SEC * ds, dn);
    Thousands(-(USEC_PER_SEC * ds), -dn);
  }

  /**
   Where C defines the subtraction, it is right exactly if both times lie in the same span of 2^32
   seconds, counted from where an `int` wraps; and C defines a right one exactly if, on top of
   that, an `int` can hold the difference.
   */
  lemma CalcDiffDefined(t1: Time, t2: Time)
    requires t1.Normal() && t2.Normal()
    ensures SubtractionDefined(t1, t2) ==> (CalcDiff(t1, t2) == RoundedDiff(t1, t2) <==> SpanOf(t1) == SpanOf(t2))
    ensures SubtractionDefined(t1, t2) && CalcDiff(t1, t2) == RoundedDiff(t1, t2) <==>
      SpanOf(t1) == SpanOf(t2) && FitsInt(t1.sec - t2.sec)
  {
    CalcDiffExact(t1, t2);
    CastKeepsPlace(t1.sec);
    CastKeepsPlace(t2.sec);
  }

  lemma RoundedWithin(t1: Time, t2: Time)
    ensures -1000 < 1000 * RoundedDiff(t1, t2) - (t1.Total() - t2.Total()) < 1000
    ensures t1.Total() >= t2.Total() ==> RoundedDiff(t1, t2) >= 0
  {
  }

  lemma InRangeDefined(t1: Time, t2: Time)
    requires InRange(t1) && InRange(t2)
    ensures SubtractionDefined(t1, t2) && RoundedDiff(t1, t2) < TWO31 * USEC_PER_SEC
  {
    assert CInt(t1.sec) == t1.sec && CInt(t2.sec) == t2.sec;
    var dn := t1.nsec - t2.nsec;
    assert t1.Total() - t2.Total() == NSEC_PER_SEC * (t1.sec - t2.sec) + dn;
  }

  lemma SmallIsUnsigned(x: int, rounded: int)
    requires x == rounded >= 0
    ensures AsUnsigned(x) == x >= 0
  {
  }

  /** Never early, and less than a microsecond off; so its unsigned form is itself. */
  lemma CalcDiffAccuracy(now: Time, next: Time)
    requires InRange(now) && InRange(next) && now.Total() >= next.Total()
    ensures 0 <= CalcDiff(now, next) < TWO31 * USEC_PER_SEC
    ensures AsUnsigned(CalcDiff(now, next)) == CalcDiff(now, next)
    ensures SubtractionDefined(now, next)
    ensures -1000 < 1000 * CalcDiff(now, next) - (now.Total() - next.Total()) < 1000
  {
    CalcDiffRounds(now, next);
    RoundedWithin(now, next);
    InRangeDefined(now, next);
    SmallIsUnsigned(CalcDiff(now, next), RoundedDiff(now, next));
  }

  // ------------------------------------------------------------------
  // The timer loop

  /** One turn of the loop: the shutdown flag as read, and what the system calls return. */
  datatype Wake = Wake(shutdown: bool, sleepError: int, clockError: int, now: Time)

  predicate Completes(w: Wake) {
    !w.shutdown && w.sleepError == 0 && w.clockError == 0
  }

  /** The first n turns all complete. */
  predicate AllComplete(wakes: seq<Wake>, n: nat)
    requires n <= |wakes|
  {
    n == 0 || (AllComplete(wakes, n - 1) && Completes(wakes[n - 1]))
  }

  /** Why the loop is over after n cycles: no turn is left, the next one fails, or the limit is reached. */
  predicate Ends(wakes: seq<Wake>, maxCycles: nat, n: nat)
    requires n <= |wakes|
  {
    n == |wakes| || !Completes(wakes[n]) || (maxCycles != 0 && n == maxCycles)
  }

  /** When cycle k is due, in nanoseconds: one interval (in microseconds) after the one before. */
  function Due(start: Time, interval: nat, k: nat): int {
    (if k == 0 then start.Total() else Due(start, interval, k - 1)) + interval * 1000
  }

  /** Nothing accumulates: cycle k is due exactly k + 1 intervals after the start. */
  lemma {:induction false} DueDoesNotDrift(start: Time, interval: nat, k: nat)
    ensures Due(start, interval, k) == start.Total() + (k + 1) * interval * 1000
  {
    if k > 0 {
      DueDoesNotDrift(start, interval, k - 1);
    }
  }

  /** An absolute sleep that succeeds does not return before the time it was given. */
  predicate SleepsLongEnough(start: Time, interval: nat, wakes: seq<Wake>) {
    forall k :: 0 <= k < |wakes| && Completes(wakes[k]) ==>
      InRange(wakes[k].now) && wakes[k].now.Total() >= Due(start, interval, k)
  }

  /** The latency of cycle k, in microseconds. */
  function Latency(start: Time, interval: nat, wakes: seq<Wake>, k: nat): int
    requires k < |wakes|
  {
    RoundedDiff(wakes[k].now, TimeOf(Due(start, interval, k)))
  }

  function Latencies(start: Time, interval: nat, wakes: seq<Wake>, n: nat): (ls: seq<int>)
    requires n <= |wakes|
    ensures |ls| == n
  {
    if n == 0 then [] else Latencies(start, interval, wakes, n - 1) + [Latency(start, interval, wakes, n - 1)]
  }

  lemma {:induction false} LatencyAt(start: Time, interval: nat, wakes: seq<Wake>, n: nat, k: nat)
    requires k < n <= |wakes|
    ensures Latencies(start, interval, wakes, n)[k] == Latency(start, interval, wakes, k)
  {
    if k < n - 1 {
      LatencyAt(start, interval, wakes, n - 1, k);
    }
  }

  function Sum(xs: seq<int>): int {
    if xs == [] then 0 else Sum(xs[..|xs| - 1]) + xs[|xs| - 1]
  }

  /** One latency adds itself, and sums add up. */
  lemma {:induction false} SumAddsUp(xs: seq<int>, ys: seq<int>)
    ensures forall x :: Sum([x]) == x
    ensures Sum(xs + ys) == Sum(xs) + Sum(ys)
  {
    if ys == [] {
      assert xs + ys == xs;
    } else {
      SumAddsUp(xs, ys[..|ys| - 1]);
      assert (xs + ys)[..|xs + ys| - 1] == xs + ys[..|ys| - 1];
    }
  }

  /** A sum lies between the number of its parts times their bounds. */
  lemma {:induction false} SumBounds(xs: seq<int>, lo: int, hi: int)
    requires forall k :: 0 <= k < |xs| ==> lo <= xs[k] <= hi
    ensures lo * |xs| <= Sum(xs) <= hi * |xs|
  {
    if xs != [] {
      var n := |xs| - 1;
      SumBounds(xs[..n], lo, hi);
      assert lo * |xs| == lo * n + lo && hi * |xs| == hi * n + hi;
    }
  }

  predicate IsMin(m: int, start: int, xs: seq<int>) {
    && (m == start || m in xs) && m <= start && forall k :: 0 <= k < |xs| ==> m <= xs[k]
  }

  predicate IsMax(m: int, start: int, xs: seq<int>) {
    && (m == start || m in xs) && m >= start && forall k :: 0 <= k < |xs| ==> m >= xs[k]
  }

  /** `struct thread_stat`, with the accumulated `avg` in exact arithmetic. */
  class TimerThread {
    var cycles: nat
    var min: int
    var max: int
    var act: int
    var avg: int

    constructor ()
      ensures cycles == 0 && min == 1_000_000 && max == 0 && avg == 0
    {
      cycles, min, max, act, avg := 0, 1_000_000, 0, 0, 0;
    }

    /** The statistics are those of the latencies of the cycles so far. */
    ghost predicate Counted(ls: seq<int>)
      reads this
    {
      && cycles == |ls|
      && IsMin(min, 1_000_000, ls) && IsMax(max, 0, ls)
      && avg == Sum(ls)
      && (ls != [] ==> act == ls[|ls| - 1])
    }

    /** One completed cycle: the comparisons are on `uint64_t`. */
    method Record(now: Time, next: Time, ghost ls: seq<int>)
      requires InRange(now) && InRange(next) && now.Total() >= next.Total()
      requires Counted(ls) && min >= 0 && max >= 0
      modifies this
      ensures Counted(ls + [RoundedDiff(now, next)]) && min >= 0 && max >= 0
    {
      CalcDiffRounds(now, next);
      CalcDiffAccuracy(now, next);
      Tally(AsUnsigned(CalcDiff(now, next)), ls);
    }

    /** The statistics take in one latency, compared as an unsigned number. */
    method Tally(diff: nat, ghost ls: seq<int>)
      requires Counted(ls) && min >= 0 && max >= 0
      modifies this
      ensures Counted(ls + [diff]) && min >= 0 && max >= 0
    {
      assert (ls + [diff])[..|ls|] == ls;
      if diff < AsUnsigned(min) {
        min := diff;
      }
      if diff > AsUnsigned(max) {
        max := diff;
      }
      avg := avg + diff;
      act := diff;
      cycles := cycles + 1;
    }

    /** Cycle `turn`: the latency against `next` is recorded, and `next` moves on. */
    method Cycle(next: Timespec, interval: Time, start: Time, usecs: nat, ghost wakes: seq<Wake>, turn: nat, now: Time)
      requires InRange(start) && interval.nsec >= 0 && interval.Total() == usecs * 1000
      requires turn < |wakes| && wakes[turn].now == now && InRange(now) && now.Total() >= Due(start, usecs, turn)
      requires next.Value().Normal() && next.Value().Total() == Due(start, usecs, turn)
      requires Counted(Latencies(start, usecs, wakes, turn)) && min >= 0 && max >= 0
      modifies this, next
      ensures next.Value().Normal() && next.Value().Total() == Due(start, usecs, turn + 1)
      ensures Counted(Latencies(start, usecs, wakes, turn + 1)) && min >= 0 && max >= 0
    {
      DueInRange(start, usecs, turn, now);
      NormalIsUnique(next.Value());
      Record(now, next.Value(), Latencies(start, usecs, wakes, turn));
      next.Advance(interval);
    }

    /** The loop of `timer_thread`: on shutdown, an error or the cycle limit it ends. */
    method Loop(next: Timespec, interval: Time, start: Time, usecs: nat, maxCycles: nat, wakes: seq<Wake>)
      requires InRange(start) && SleepsLongEnough(start, usecs, wakes)
      requires interval.nsec >= 0 && interval.Total() == usecs * 1000
      requires next.Value().Normal() && next.Value().Total() == Due(start, usecs, 0)
      requires Counted([]) && min >= 0 && max >= 0
      modifies this, next
      ensures next.Value().Normal() && next.Value().Total() == Due(start, usecs, cycles)
      ensures cycles <= |wakes| && Counted(Latencies(start, usecs, wakes, cycles))
      ensures AllComplete(wakes, cycles)
      ensures maxCycles != 0 ==> cycles <= maxCycles
      ensures Ends(wakes, maxCycles, cycles)
    {
      var done := false;
      while !done && cycles < |wakes| && !wakes[cycles].shutdown
        invariant cycles <= |wakes|
        invariant OnSchedule(next, start, usecs, wakes)
        invariant maxCycles != 0 ==> cycles <= maxCycles && (done || cycles < maxCycles)
        invariant done ==> Ends(wakes, maxCycles, cycles)
        decreases |wakes| - cycles, !done
      {
        done := OneTurn(next, interval, start, usecs, maxCycles, wakes);
      }
    }

    /** What holds after each completed cycle. */
    ghost predicate OnSchedule(next: Timespec, start: Time, usecs: nat, wakes: seq<Wake>)
      requires cycles <= |wakes|
      reads this, next
    {
      && next.Value().Normal() && next.Value().Total() == Due(start, usecs, cycles)
      && Counted(Latencies(start, usecs, wakes, cycles)) && min >= 0 && max >= 0
      && AllComplete(wakes, cycles)
    }

    /** The body of the loop; the result says whether the loop is left. */
    method OneTurn(next: Timespec, interval: Time, start: Time, usecs: nat, maxCycles: nat, wakes: seq<Wake>)
      returns (done: bool)
      requires InRange(start) && SleepsLongEnough(start, usecs, wakes)
      requires interval.nsec >= 0 && interval.Total() == usecs * 1000
      requires cycles < |wakes| && !wakes[cycles].shutdown && OnSchedule(next, start, usecs, wakes)
      modifies this, next
      ensures cycles == old(cycles) + (if Completes(wakes[old(cycles)]) then 1 else 0)
      ensures OnSchedule(next, start, usecs, wakes)
      ensures done <==> !Completes(wakes[old(cycles)]) || (maxCycles != 0 && cycles == maxCycles)
    {
      var w := wakes[cycles];
      if w.sleepError != 0 {
        return true;
      }
      if w.clockError != 0 {
        return true;
      }
      Cycle(next, interval, start, usecs, wakes, cycles, w.now);
      return maxCycles != 0 && maxCycles == cycles;
    }

    /**
     `timer_thread` after its set-up.  Cycle k sleeps until start + (k + 1) intervals, whatever
     the latencies, and the statistics are exactly those of the cycles that completed.
     */
    method Run(start: Time, usecs: nat, maxCycles: nat, wakes: seq<Wake>) returns (next: Timespec)
      requires InRange(start) && SleepsLongEnough(start, usecs, wakes)
      requires Counted([])
      modifies this
      ensures fresh(next) && next.Value().Normal()
      ensures next.Value().Total() == start.Total() + (cycles + 1) * usecs * 1000
      ensures cycles <= |wakes| && Counted(Latencies(start, usecs, wakes, cycles))
      ensures min * cycles <= avg <= max * cycles
      ensures AllComplete(wakes, cycles)
      ensures maxCycles != 0 ==> cycles <= maxCycles
      ensures Ends(wakes, maxCycles, cycles)
    {
      var interval := IntervalOf(usecs);
      next := new Timespec(start);
      next.Advance(interval);
      Loop(next, interval, start, usecs, maxCycles, wakes);
      DueDoesNotDrift(start, usecs, cycles);
      SumBounds(Latencies(start, usecs, wakes, cycles), min, max);
    }
  }

  method IntervalOf(usecs: nat) returns (interval: Time)
    ensures interval.Normal() && interval.Total() == usecs * 1000
  {
    interval := Time(usecs / USEC_PER_SEC, usecs % USEC_PER_SEC * 1000);
  }

  lemma DueInRange(start: Time, usecs: nat, k: nat, now: Time)
    requires InRange(start) && InRange(now) && now.Total() >= Due(start, usecs, k)
    ensures InRange(TimeOf(Due(start, usecs, k)))
  {
    DueAfterStart(start, usecs, k);
  }

  lemma {:induction false} DueAfterStart(start: Time, usecs: nat, k: nat)
    ensures Due(start, usecs, k) >= start.Total()
  {
    if k > 0 {
      DueAfterStart(start, usecs, k - 1);
    }
  }
}
