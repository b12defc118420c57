/**
 The latency probes of the SystemTap histogram: a per-CPU depth counter and one time
 stamp stand for a call stack, and every return to depth zero records an interval.
 */
module CallTracker {

  /** A probe firing on a CPU at a time in nanoseconds. */
  datatype Event = Call(cpu: nat, time: int) | Return(cpu: nat, time: int)

  /** The interval `ns` recorded on a CPU. */
  datatype Sample = Sample(cpu: nat, ns: int)

  // ------------------------------------------------------------------
  // Reference: call stacks

  /** The times of the calls still open on one CPU, the outermost first. */
  type Stack = seq<int>

  /** A matched pair: when it was called, when it returned, and how many calls enclose it. */
  datatype Pair = Pair(cpu: nat, called: int, returned: int, depth: nat)

  /** The events of one CPU. */
  function OnCpu(events: seq<Event>, cpu: nat): seq<Event> {
    if events == [] then []
    else
      var e := events[|events| - 1];
      var rest := OnCpu(events[..|events| - 1], cpu);
      if e.cpu == cpu then rest + [e] else rest
  }

  /** The open calls after the events of one CPU; a return without a call changes nothing. */
  function StackAfter(events: seq<Event>): Stack {
    if events == [] then []
    else
      var stack := StackAfter(events[..|events| - 1]);
      match events[|events| - 1]
      case Call(_, time) => stack + [time]
      case Return(_, _) => if stack == [] then [] else stack[..|stack| - 1]
  }

  /** All matched pairs among the events of one CPU, in the order of their returns. */
  function MatchedPairs(events: seq<Event>): seq<Pair> {
    if events == [] then []
    else
      var before := events[..|events| - 1];
      var stack := StackAfter(before);
      match events[|events| - 1]
      case Call(_, _) => MatchedPairs(before)
      case Return(cpu, time) =>
        if stack == [] then MatchedPairs(before)
        else MatchedPairs(before) + [Pair(cpu, stack[|stack| - 1], time, |stack| - 1)]
  }

  /** The durations of the outermost pairs. */
  function OutermostDurations(pairs: seq<Pair>): seq<int> {
    if pairs == [] then []
    else
      var p := pairs[|pairs| - 1];
      var rest := OutermostDurations(pairs[..|pairs| - 1]);
      if p.depth == 0 then rest + [p.returned - p.called] else rest
  }

  /** The intervals recorded for one CPU. */
  function SamplesOf(samples: seq<Sample>, cpu: nat): seq<int> {
    if samples == [] then []
    else
      var s := samples[|samples| - 1];
      var rest := SamplesOf(samples[..|samples| - 1], cpu);
      if s.cpu == cpu then rest + [s.ns] else rest
  }

  lemma OnCpuNext(events: seq<Event>, e: Event, cpu: nat)
    ensures OnCpu(events + [e], cpu) == if e.cpu == cpu then OnCpu(events, cpu) + [e] else OnCpu(events, cpu)
  {
    assert (events + [e])[..|events|] == events;
  }

  lemma StackNext(events: seq<Event>, e: Event)
    ensures var stack := StackAfter(events);
      && StackAfter(events + [e]) ==
           (if e.Call? then stack + [e.time] else if stack == [] then [] else stack[..|stack| - 1])
      && MatchedPairs(events + [e]) ==
           (if e.Call? || stack == [] then MatchedPairs(events)
            else MatchedPairs(events) + [Pair(e.cpu, stack[|stack| - 1], e.time, |stack| - 1)])
  {
    assert (events + [e])[..|events|] == events;
  }

  lemma DurationsNext(pairs: seq<Pair>, p: Pair)
    ensures OutermostDurations(pairs + [p]) ==
      if p.depth == 0 then OutermostDurations(pairs) + [p.returned - p.called] else OutermostDurations(pairs)
  {
    assert (pairs + [p])[..|pairs|] == pairs;
  }

  /** The samples of a CPU are its own, in order, and nothing else. */
  lemma {:induction false} SamplesAddUp(samples: seq<Sample>, more: seq<Sample>, cpu: nat)
    ensures SamplesOf(samples + more, cpu) == SamplesOf(samples, cpu) + SamplesOf(more, cpu)
    ensures forall ns :: SamplesOf([Sample(cpu, ns)], cpu) == [ns]
    ensures forall c: nat, ns :: c != cpu ==> SamplesOf([Sample(c, ns)], cpu) == []
  {
    if more == [] {
      assert samples + more == samples;
    } else {
      var n := |more| - 1;
      SamplesAddUp(samples, more[..n], cpu);
      assert (samples + more)[..|samples + more| - 1] == samples + more[..n];
    }
  }

  /** The events of a CPU are its own, in order, and nothing else. */
  lemma {:induction false} OnCpuAddsUp(events: seq<Event>, more: seq<Event>, cpu: nat)
    ensures OnCpu(events + more, cpu) == OnCpu(events, cpu) + OnCpu(more, cpu)
  {
    if more == [] {
      assert events + more == events;
    } else {
      var n := |more| - 1;
      OnCpuAddsUp(events, more[..n], cpu);
      OnCpuNext(events + more[..n], more[n], cpu);
      assert events + more[..n] + [more[n]] == events + more;
    }
  }

  lemma OnCpuAlone(e: Event, cpu: nat)
    ensures OnCpu([e], cpu) == if e.cpu == cpu then [e] else []
  {
  }

  /** After an outermost call, in `start`, the depth does not fall to zero. */
  predicate StaysInside(start: seq<Event>, inner: seq<Event>) {
    StackAfter(start + inner) != [] && (inner == [] || StaysInside(start, inner[..|inner| - 1]))
  }

  /** Whatever is called in between, the bottom of the stack stays, and nothing is recorded. */
  lemma {:induction false} InsideOutermost(start: seq<Event>, inner: seq<Event>)
    requires |StackAfter(start)| == 1 && StaysInside(start, inner)
    ensures StackAfter(start + inner) != [] && StackAfter(start + inner)[0] == StackAfter(start)[0]
    ensures OutermostDurations(MatchedPairs(start + inner)) == OutermostDurations(MatchedPairs(start))
  {
    if inner == [] {
      assert start + inner == start;
    } else {
      var n := |inner| - 1;
      var init, e := start + inner[..n], inner[n];
      InsideOutermost(start, inner[..n]);
      assert init + [e] == start + inner;
      NotOutermost(init, e);
    }
  }

  /** An event that leaves calls open keeps the bottom of the stack and records nothing. */
  lemma NotOutermost(init: seq<Event>, e: Event)
    requires StackAfter(init) != [] && StackAfter(init + [e]) != []
    ensures StackAfter(init + [e])[0] == StackAfter(init)[0]
    ensures OutermostDurations(MatchedPairs(init + [e])) == OutermostDurations(MatchedPairs(init))
  {
    var stack := StackAfter(init);
    StackNext(init, e);
    if e.Return? {
      DurationsNext(MatchedPairs(init), Pair(e.cpu, stack[|stack| - 1], e.time, |stack| - 1));
    }
  }

  /** The return that ends an outermost call records the time since that call, once. */
  lemma OutermostInterval(before: seq<Event>, cpu: nat, a: int, inner: seq<Event>, b: int)
    requires StackAfter(before) == [] && StaysInside(before + [Call(cpu, a)], inner)
    requires |StackAfter(before + [Call(cpu, a)] + inner)| == 1
    ensures var all := before + [Call(cpu, a)] + inner + [Return(cpu, b)];
      && StackAfter(all) == []
      && OutermostDurations(MatchedPairs(all)) == OutermostDurations(MatchedPairs(before)) + [b - a]
  {
    var start := before + [Call(cpu, a)];
    StackNext(before, Call(cpu, a));
    InsideOutermost(start, inner);
    StackNext(start + inner, Return(cpu, b));
    DurationsNext(MatchedPairs(start + inner), Pair(cpu, a, b, 0));
  }

  lemma SamplesNext(samples: seq<Sample>, s: Sample, cpu: nat)
    ensures SamplesOf(samples + [s], cpu) ==
      if s.cpu == cpu then SamplesOf(samples, cpu) + [s.ns] else SamplesOf(samples, cpu)
  {
    assert (samples + [s])[..|samples|] == samples;
  }

  lemma AllSamplesNext(samples: seq<Sample>, s: Sample)
    ensures forall c: nat :: SamplesOf(samples + [s], c) ==
                             (if s.cpu == c then SamplesOf(samples, c) + [s.ns] else SamplesOf(samples, c))
  {
    forall c: nat {
      SamplesNext(samples, s, c);
    }
  }

  // ------------------------------------------------------------------
  // The counters of one CPU

  /** What the two arrays say about the stack of a CPU. */
  predicate Represents(trace: int, etime: int, stack: Stack) {
    && trace == |stack|
    && etime == (if stack == [] then 0 else stack[0])
    && (stack != [] ==> stack[0] > 0)
  }

  /** A call, seen by its CPU. */
  lemma CallKeeps(trace: int, etime: int, mine: seq<Event>, cpu: nat, now: int)
    requires Represents(trace, etime, StackAfter(mine)) && now > 0
    ensures var mine' := mine + [Call(cpu, now)];
      && Represents(trace + 1, if trace + 1 == 1 then now else etime, StackAfter(mine'))
      && MatchedPairs(mine') == MatchedPairs(mine)
  {
    StackNext(mine, Call(cpu, now));
  }

  /** The counters follow a return: at depth zero both are cleared. */
  lemma PopKeeps(trace: int, etime: int, stack: Stack)
    requires Represents(trace, etime, stack)
    ensures var settles := trace - 1 <= 0;
      && (settles <==> |stack| <= 1) && (etime == 0 <==> stack == [])
      && Represents(if settles then 0 else trace - 1, if settles then 0 else etime,
                    if stack == [] then [] else stack[..|stack| - 1])
  {
  }

  /** A return, seen by its CPU: counter and stamp follow the stack, and so does what is recorded. */
  lemma ReturnKeeps(trace: int, etime: int, samples: seq<int>, mine: seq<Event>, cpu: nat, now: int)
    requires Represents(trace, etime, StackAfter(mine))
    requires samples == OutermostDurations(MatchedPairs(mine))
    ensures var mine' := mine + [Return(cpu, now)]; var settles := trace - 1 <= 0;
      && Represents(if settles then 0 else trace - 1, if settles then 0 else etime, StackAfter(mine'))
      && OutermostDurations(MatchedPairs(mine')) == (if settles && etime != 0 then samples + [now - etime] else samples)
      && (etime == 0 <==> StackAfter(mine) == [])
  {
    var stack := StackAfter(mine);
    StackNext(mine, Return(cpu, now));
    PopKeeps(trace, etime, stack);
    if stack != [] {
      DurationsNext(MatchedPairs(mine), Pair(cpu, stack[|stack| - 1], now, |stack| - 1));
    }
  }

  // ------------------------------------------------------------------
  // The probes

  class Tracker {
    /** Global arrays; an entry that was never written reads as zero. */
    var trace: map<nat, int>
    var etime: map<nat, int>
    /** The aggregate, as the list of what was added to it. */
    var intervals: seq<Sample>
    /** Every event so far, and how often the script complained about an unmatched return. */
    ghost var log: seq<Event>
    var complaints: nat

    constructor ()
      ensures Valid() && log == [] && intervals == []
    {
      trace, etime, intervals, log, complaints := map[], map[], [], [], 0;
    }

    function Depth(cpu: nat): int
      reads this`trace
    {
      if cpu in trace then trace[cpu] else 0
    }

    function Stamp(cpu: nat): int
      reads this`etime
    {
      if cpu in etime then etime[cpu] else 0
    }

    /** The state of each CPU, against its own events alone. */
    ghost predicate CpuValid(cpu: nat)
      reads this
    {
      var mine := OnCpu(log, cpu);
      && Represents(Depth(cpu), Stamp(cpu), StackAfter(mine))
      && SamplesOf(intervals, cpu) == OutermostDurations(MatchedPairs(mine))
    }

    ghost predicate Valid()
      reads this
    {
      forall cpu: nat :: CpuValid(cpu)
    }

    /** `probe $1.call`. */
    method CallProbe(cpu: nat, now: int)
      modifies this`trace, this`etime
      ensures Depth(cpu) == old(Depth(cpu)) + 1
      ensures Stamp(cpu) == if old(Depth(cpu)) + 1 == 1 then now else old(Stamp(cpu))
      ensures forall c: nat :: c != cpu ==> Depth(c) == old(Depth(c)) && Stamp(c) == old(Stamp(c))
    {
      trace := trace[cpu := Depth(cpu) + 1];
      if trace[cpu] == 1 {
        etime := etime[cpu := now];
      }
    }

    /** `probe $1.return`. */
    method ReturnProbe(cpu: nat, now: int)
      modifies this`trace, this`etime, this`intervals, this`complaints
      ensures var settles := old(Depth(cpu)) - 1 <= 0; var t1 := old(Stamp(cpu));
        && Depth(cpu) == (if settles then 0 else old(Depth(cpu)) - 1)
        && Stamp(cpu) == (if settles then 0 else t1)
        && intervals == (if settles && t1 != 0 then old(intervals) + [Sample(cpu, now - t1)] else old(intervals))
        && complaints == old(complaints) + (if settles && t1 == 0 then 1 else 0)
      ensures forall c: nat :: c != cpu ==> Depth(c) == old(Depth(c)) && Stamp(c) == old(Stamp(c))
      ensures var settles := old(Depth(cpu)) - 1 <= 0; var t1 := old(Stamp(cpu));
        SamplesOf(intervals, cpu) ==
          if settles && t1 != 0 then SamplesOf(old(intervals), cpu) + [now - t1] else SamplesOf(old(intervals), cpu)
      ensures forall c: nat :: c != cpu ==> SamplesOf(intervals, c) == SamplesOf(old(intervals), c)
    {
      AllSamplesNext(intervals, Sample(cpu, now - Stamp(cpu)));
      trace := trace[cpu := Depth(cpu) - 1];
      if trace[cpu] <= 0 {
        var t1 := Stamp(cpu);
        trace := trace[cpu := 0];
        etime := etime[cpu := 0];
        if t1 == 0 {
          complaints := complaints + 1;
        } else {
          intervals := intervals + [Sample(cpu, now - t1)];
        }
      }
    }

    method OnCall(cpu: nat, now: int)
      requires Valid() && now > 0
      modifies this
      ensures Valid() && log == old(log) + [Call(cpu, now)]
      ensures intervals == old(intervals) && complaints == old(complaints)
    {
      CallProbe(cpu, now);
      log := log + [Call(cpu, now)];
      forall c: nat
        ensures CpuValid(c)
      {
        assert old(CpuValid(c));
        OnCpuNext(old(log), Call(cpu, now), c);
        if c == cpu {
          CallKeeps(old(Depth(c)), old(Stamp(c)), OnCpu(old(log), c), cpu, now);
        }
      }
    }

    /** A return, as far as its own CPU is concerned. */
    method OwnReturn(cpu: nat, now: int)
      requires CpuValid(cpu)
      modifies this
      ensures CpuValid(cpu) && log == old(log) + [Return(cpu, now)]
      ensures forall c: nat :: c != cpu ==>
        && Depth(c) == old(Depth(c)) && Stamp(c) == old(Stamp(c))
        && SamplesOf(intervals, c) == SamplesOf(old(intervals), c)
      ensures var unmatched := StackAfter(OnCpu(old(log), cpu)) == [];
        && complaints == old(complaints) + (if unmatched then 1 else 0)
        && (unmatched ==> intervals == old(intervals))
    {
      ReturnKeeps(Depth(cpu), Stamp(cpu), SamplesOf(intervals, cpu), OnCpu(log, cpu), cpu, now);
      OnCpuNext(log, Return(cpu, now), cpu);
      ReturnProbe(cpu, now);
      log := log + [Return(cpu, now)];
    }

    /** A return on a CPU with no open call is complained about and records nothing. */
    method OnReturn(cpu: nat, now: int)
      requires Valid()
      modifies this
      ensures Valid() && log == old(log) + [Return(cpu, now)]
      ensures var unmatched := StackAfter(OnCpu(old(log), cpu)) == [];
        && complaints == old(complaints) + (if unmatched then 1 else 0)
        && (unmatched ==> intervals == old(intervals))
    {
      assert CpuValid(cpu);
      OwnReturn(cpu, now);
      forall c: nat
        ensures CpuValid(c)
      {
        if c != cpu {
          assert old(CpuValid(c));
          OnCpuNext(old(log), Return(cpu, now), c);
        }
      }
    }

    /**
     Any interleaving of probes on any CPUs.  What is recorded for a CPU are the durations of
     the outermost matched pairs among its own events, and nothing else.
     */
    method Trace(events: seq<Event>)
      requires Valid() && forall k :: 0 <= k < |events| ==> events[k].time > 0
      modifies this
      ensures Valid() && log == old(log) + events
    {
      for k := 0 to |events|
        invariant Valid() && log == old(log) + events[..k]
      {
        assert old(log) + events[..k + 1] == old(log) + events[..k] + [events[k]];
        match events[k]
        case Call(cpu, time) => OnCall(cpu, time);
        case Return(cpu, time) => OnReturn(cpu, time);
      }
      assert events[..|events|] == events;
    }
  }
}
