/**
 The per-function costs that are derived from a perf report: collecting the lines, the
 group reports with their visit counts, and the negative report over what no group showed.
 Percentages and nanoseconds are exact.
 */
module PerfReport {

  // ------------------------------------------------------------------
  // Sums over sets of functions

  ghost function Sum(keys: set<string>, f: string -> real): real {
    if keys == {} then 0.0
    else
      var k :| k in keys;
      f(k) + Sum(keys - {k}, f)
  }

  /** Any element may be taken out first. */
  lemma {:induction false} SumTake(keys: set<string>, f: string -> real, k: string)
    requires k in keys
    ensures Sum(keys, f) == f(k) + Sum(keys - {k}, f)
    decreases |keys|
  {
    var j :| j in keys && Sum(keys, f) == f(j) + Sum(keys - {j}, f);
    if j != k {
      SumTake(keys - {j}, f, k);
      SumTake(keys - {k}, f, j);
      assert keys - {j} - {k} == keys - {k} - {j};
    }
  }

  lemma {:induction false} SumSame(keys: set<string>, f: string -> real, g: string -> real)
    requires forall k :: k in keys ==> f(k) == g(k)
    ensures Sum(keys, f) == Sum(keys, g)
    decreases |keys|
  {
    if keys != {} {
      var k :| k in keys;
      SumTake(keys, f, k);
      SumTake(keys, g, k);
      SumSame(keys - {k}, f, g);
    }
  }

  /** Changing or adding one function's value changes the sum by the difference. */
  lemma SumUpdate(keys: set<string>, f: string -> real, g: string -> real, k: string)
    requires forall j :: j in keys && j != k ==> f(j) == g(j)
    ensures Sum(keys + {k}, g) == Sum(keys, f) + g(k) - (if k in keys then f(k) else 0.0)
  {
    SumTake(keys + {k}, g, k);
    assert keys + {k} - {k} == keys - {k};
    SumSame(keys - {k}, f, g);
    if k in keys {
      SumTake(keys, f, k);
    } else {
      assert keys - {k} == keys;
    }
  }

  lemma {:induction false} SumPlus(keys: set<string>, f: string -> real, g: string -> real, h: string -> real)
    requires forall k :: k in keys ==> h(k) == f(k) + g(k)
    ensures Sum(keys, h) == Sum(keys, f) + Sum(keys, g)
    decreases |keys|
  {
    if keys != {} {
      var k :| k in keys;
      SumTake(keys, f, k);
      SumTake(keys, g, k);
      SumTake(keys, h, k);
      SumPlus(keys - {k}, f, g, h);
    }
  }

  /** A sum over some of the keys is a sum over all, the others counting nothing. */
  lemma {:induction false} SumPart(part: set<string>, keys: set<string>, f: string -> real, g: string -> real)
    requires part <= keys
    requires forall k :: k in keys ==> g(k) == if k in part then f(k) else 0.0
    ensures Sum(part, f) == Sum(keys, g)
    decreases |keys|
  {
    if keys != {} {
      var k :| k in keys;
      SumTake(keys, g, k);
      if k in part {
        SumTake(part, f, k);
      } else {
        assert part - {k} == part;
      }
      SumPart(part - {k}, keys - {k}, f, g);
    }
  }

  // ------------------------------------------------------------------
  // Collecting the report

  /** Digits with a decimal point: a share that parses has no sign. */
  type Share = r: real | r >= 0.0

  /** A line of the report: a symbol with its share, or something that does not parse. */
  datatype Line = Symbol(sym: string, percent: Share) | Other

  datatype Cost = Cost(percent: real, nanosec: real)

  /** The shares of all lines for one symbol, and of all lines. */
  function ShareOf(lines: seq<Line>, sym: string): real {
    if lines == [] then 0.0
    else
      var l := lines[|lines| - 1];
      ShareOf(lines[..|lines| - 1], sym) + if l.Symbol? && l.sym == sym then l.percent else 0.0
  }

  function TotalShare(lines: seq<Line>): real {
    if lines == [] then 0.0
    else
      var l := lines[|lines| - 1];
      TotalShare(lines[..|lines| - 1]) + if l.Symbol? then l.percent else 0.0
  }

  predicate Mentioned(lines: seq<Line>, sym: string) {
    exists k :: 0 <= k < |lines| && lines[k].Symbol? && lines[k].sym == sym
  }

  /** Shares add up over lines, and one line gives its own symbol its share and no other. */
  lemma {:induction false} SharesAddUp(lines: seq<Line>, more: seq<Line>, sym: string)
    ensures ShareOf(lines + more, sym) == ShareOf(lines, sym) + ShareOf(more, sym)
    ensures TotalShare(lines + more) == TotalShare(lines) + TotalShare(more)
    ensures forall l :: l in more ==>
      && ShareOf([l], sym) == (if l.Symbol? && l.sym == sym then l.percent else 0.0)
      && TotalShare([l]) == (if l.Symbol? then l.percent else 0.0)
  {
    if more == [] {
      assert lines + more == lines;
    } else {
      var n := |more| - 1;
      SharesAddUp(lines, more[..n], sym);
      assert (lines + more)[..|lines + more| - 1] == lines + more[..n];
    }
  }

  lemma TotalNext(lines: seq<Line>, l: Line)
    ensures TotalShare(lines + [l]) == TotalShare(lines) + if l.Symbol? then l.percent else 0.0
  {
    assert (lines + [l])[..|lines|] == lines;
  }

  lemma SharesNext(lines: seq<Line>, l: Line)
    ensures forall sym ::
      ShareOf(lines + [l], sym) == ShareOf(lines, sym) + if l.Symbol? && l.sym == sym then l.percent else 0.0
    ensures forall sym :: Mentioned(lines + [l], sym) <==> Mentioned(lines, sym) || (l.Symbol? && l.sym == sym)
  {
    assert (lines + [l])[..|lines|] == lines;
    forall sym
      ensures Mentioned(lines + [l], sym) <==> Mentioned(lines, sym) || (l.Symbol? && l.sym == sym)
    {
      if Mentioned(lines, sym) {
        var k :| 0 <= k < |lines| && lines[k].Symbol? && lines[k].sym == sym;
        assert (lines + [l])[k] == lines[k];
      }
      if l.Symbol? && l.sym == sym {
        assert (lines + [l])[|lines|] == l;
      }
    }
  }

  function CostOf(nanosec: real, percent: real): real {
    nanosec * (percent / 100.0)
  }

  /** A share is in hundredths: it costs that many hundredths of the time, and the whole all of it. */
  lemma PriceIsShare(price: real, nanosec: real, percent: real)
    requires price == CostOf(nanosec, percent)
    ensures 100.0 * price == nanosec * percent
    ensures percent == 100.0 ==> price == nanosec
  {
  }

  lemma CostAdds(nanosec: real, a: real, b: real)
    ensures CostOf(nanosec, a + b) == CostOf(nanosec, a) + CostOf(nanosec, b)
  {
  }

  /** The share and the cost of each function, as functions of the symbol. */
  function Percents(funcs: map<string, Cost>): string -> real {
    (sym: string) => if sym in funcs then funcs[sym].percent else 0.0
  }

  function Nanosecs(funcs: map<string, Cost>): string -> real {
    (sym: string) => if sym in funcs then funcs[sym].nanosec else 0.0
  }

  /** Each function has the share its lines add up to, and costs that much of a packet's time. */
  ghost predicate Tallied(funcs: map<string, Cost>, lines: seq<Line>, nanosec: real) {
    && (forall sym :: sym in funcs <==> Mentioned(lines, sym))
    && (forall sym :: sym in funcs ==>
          funcs[sym].percent == ShareOf(lines, sym) && funcs[sym].nanosec == CostOf(nanosec, ShareOf(lines, sym)))
  }

  predicate FairlyPriced(c: Cost, nanosec: real) {
    c.nanosec == CostOf(nanosec, c.percent)
  }

  function Added(funcs: map<string, Cost>, nanosec: real, sym: string, percent: real): map<string, Cost> {
    var sum := if sym in funcs then funcs[sym].percent + percent else percent;
    funcs[sym := Cost(sum, CostOf(nanosec, sum))]
  }

  lemma TallyNext(funcs: map<string, Cost>, lines: seq<Line>, nanosec: real, sym: string, percent: Share)
    requires Tallied(funcs, lines, nanosec)
    ensures Tallied(Added(funcs, nanosec, sym, percent), lines + [Symbol(sym, percent)], nanosec)
    ensures sym in funcs ==> FairlyPriced(funcs[sym], nanosec)
  {
    SharesNext(lines, Symbol(sym, percent));
    if sym !in funcs {
      NotMentioned(lines, sym);
    }
  }

  lemma SumsNext(funcs: map<string, Cost>, nanosec: real, sym: string, percent: real)
    requires sym in funcs ==> FairlyPriced(funcs[sym], nanosec)
    ensures var added := Added(funcs, nanosec, sym, percent);
      && Sum(added.Keys, Percents(added)) == Sum(funcs.Keys, Percents(funcs)) + percent
      && Sum(added.Keys, Nanosecs(added)) == Sum(funcs.Keys, Nanosecs(funcs)) + CostOf(nanosec, percent)
      && added[sym].nanosec - (if sym in funcs then funcs[sym].nanosec else 0.0) == CostOf(nanosec, percent)
  {
    var added := Added(funcs, nanosec, sym, percent);
    assert added.Keys == funcs.Keys + {sym};
    SumUpdate(funcs.Keys, Percents(funcs), Percents(added), sym);
    SumUpdate(funcs.Keys, Nanosecs(funcs), Nanosecs(added), sym);
    if sym in funcs {
      CostAdds(nanosec, funcs[sym].percent, percent);
    }
  }

  /** The sum over the functions is the cost of the sum of their shares. */
  ghost predicate Totalled(funcs: map<string, Cost>, nanosec: real, percentSum: real, nanosecSum: real) {
    && percentSum == Sum(funcs.Keys, Percents(funcs))
    && nanosecSum == CostOf(nanosec, percentSum) == Sum(funcs.Keys, Nanosecs(funcs))
  }

  /** By how much the cost of a function changes. */
  function Change(funcs: map<string, Cost>, nanosec: real, sym: string, percent: real): real {
    Added(funcs, nanosec, sym, percent)[sym].nanosec - if sym in funcs then funcs[sym].nanosec else 0.0
  }

  lemma TotalsNext(funcs: map<string, Cost>, nanosec: real, percentSum: real, nanosecSum: real,
                   sym: string, percent: real)
    requires Totalled(funcs, nanosec, percentSum, nanosecSum) && (sym in funcs ==> FairlyPriced(funcs[sym], nanosec))
    ensures Totalled(Added(funcs, nanosec, sym, percent), nanosec, percentSum + percent,
                     nanosecSum + Change(funcs, nanosec, sym, percent))
  {
    CostAdds(nanosec, percentSum, percent);
    SumsNext(funcs, nanosec, sym, percent);
  }

  /** Shares, costs and totals after these lines. */
  ghost predicate Summed(funcs: map<string, Cost>, lines: seq<Line>, nanosec: real,
                         percentSum: real, nanosecSum: real)
  {
    && Tallied(funcs, lines, nanosec)
    && percentSum == TotalShare(lines)
    && Totalled(funcs, nanosec, percentSum, nanosecSum)
  }

  lemma SummedNext(funcs: map<string, Cost>, lines: seq<Line>, nanosec: real, percentSum: real, nanosecSum: real,
                   sym: string, percent: Share,
                   funcs': map<string, Cost>, percentSum': real, nanosecSum': real)
    requires Summed(funcs, lines, nanosec, percentSum, nanosecSum)
    requires funcs' == Added(funcs, nanosec, sym, percent)
    requires percentSum' == percentSum + percent && nanosecSum' == nanosecSum + Change(funcs, nanosec, sym, percent)
    ensures Summed(funcs', lines + [Symbol(sym, percent)], nanosec, percentSum', nanosecSum')
  {
    TallyNext(funcs, lines, nanosec, sym, percent);
    TotalNext(lines, Symbol(sym, percent));
    TotalsNext(funcs, nanosec, percentSum, nanosecSum, sym, percent);
  }

  /** What a function, or all of them, cost is their share of the time, in hundredths. */
  ghost predicate CostsItsShare(cost: Cost, nanosec: real) {
    100.0 * cost.nanosec == nanosec * cost.percent
  }

  lemma FunctionCosts(funcs: map<string, Cost>, lines: seq<Line>, nanosec: real, sym: string)
    requires Tallied(funcs, lines, nanosec) && sym in funcs
    ensures CostsItsShare(funcs[sym], nanosec)
  {
    PriceIsShare(funcs[sym].nanosec, nanosec, funcs[sym].percent);
  }

  lemma TotalCosts(nanosec: real, percentSum: real, nanosecSum: real)
    requires nanosecSum == CostOf(nanosec, percentSum)
    ensures CostsItsShare(Cost(percentSum, nanosecSum), nanosec)
    ensures percentSum == 100.0 ==> nanosecSum == nanosec
  {
    PriceIsShare(nanosecSum, nanosec, percentSum);
  }

  class Stats {
    /** Nanoseconds per packet. */
    const nanosec: real
    var funcs: map<string, Cost>
    var nanosecSum: real
    var percentSum: real
    /** `%func_visited`. */
    var visited: map<string, nat>

    constructor (nanosec: real)
      ensures this.nanosec == nanosec && visited == map[] && Collected([])
    {
      this.nanosec := nanosec;
      funcs, nanosecSum, percentSum, visited := map[], 0.0, 0.0, map[];
    }

    /** The hash after these lines; repeated symbols have been added up. */
    ghost predicate Collected(lines: seq<Line>)
      reads this
    {
      Summed(funcs, lines, nanosec, percentSum, nanosecSum)
    }

    /** One line that parses: a new symbol, or more of a known one. */
    method Update(sym: string, percent: real)
      modifies this`funcs, this`nanosecSum, this`percentSum
      ensures funcs == Added(old(funcs), nanosec, sym, percent)
      ensures percentSum == old(percentSum) + percent
      ensures nanosecSum == old(nanosecSum) + Change(old(funcs), nanosec, sym, percent)
    {
      var ns;
      if sym !in funcs {
        ns := CostOf(nanosec, percent);
        funcs := funcs[sym := Cost(percent, ns)];
      } else {
        var sum := funcs[sym].percent + percent;
        nanosecSum := nanosecSum - funcs[sym].nanosec;
        ns := CostOf(nanosec, sum);
        funcs := funcs[sym := Cost(sum, ns)];
      }
      percentSum := percentSum + percent;
      nanosecSum := nanosecSum + ns;
    }

    method AddSymbol(sym: string, percent: Share, ghost lines: seq<Line>)
      requires Collected(lines)
      modifies this`funcs, this`nanosecSum, this`percentSum
      ensures Collected(lines + [Symbol(sym, percent)])
    {
      ghost var before, shares, costs := funcs, percentSum, nanosecSum;
      Update(sym, percent);
      SummedNext(before, lines, nanosec, shares, costs, sym, percent, funcs, percentSum, nanosecSum);
    }

    /** `collect_report`: shares as the lines add up to, and that many hundredths of the time as costs. */
    method CollectReport(lines: seq<Line>)
      requires Collected([])
      modifies this`funcs, this`nanosecSum, this`percentSum
      ensures Collected(lines)
      ensures forall sym :: sym in funcs ==>
        funcs[sym].percent == ShareOf(lines, sym) && CostsItsShare(funcs[sym], nanosec)
      ensures percentSum == TotalShare(lines) && CostsItsShare(Cost(percentSum, nanosecSum), nanosec)
      ensures percentSum == 100.0 ==> nanosecSum == nanosec
    {
      CollectLines(lines);
      TotalCosts(nanosec, percentSum, nanosecSum);
      forall sym | sym in funcs
        ensures CostsItsShare(funcs[sym], nanosec)
      {
        FunctionCosts(funcs, lines, nanosec, sym);
      }
    }

    /** The loop over the lines. */
    method CollectLines(lines: seq<Line>)
      requires Collected([])
      modifies this`funcs, this`nanosecSum, this`percentSum
      ensures Collected(lines)
    {
      for k := 0 to |lines|
        invariant Collected(lines[..k])
      {
        assert lines[..k + 1] == lines[..k] + [lines[k]];
        match lines[k]
        case Other => SharesNext(lines[..k], Other); TotalNext(lines[..k], Other);
        case Symbol(sym, percent) => AddSymbol(sym, percent, lines[..k]);
      }
      assert lines[..|lines|] == lines;
    }

    /** A function enters the hash of a report; its visit counts the first time only. */
    method Touch(sym: string, hash: map<string, nat>) returns (hash': map<string, nat>)
      modifies this`visited
      ensures hash'.Keys == hash.Keys + {sym}
      ensures visited == if sym in hash then old(visited) else old(visited)[sym := Visits(old(visited), sym) + 1]
    {
      hash' := hash[sym := Visits(hash, sym) + 1];
      if sym !in hash {
        visited := visited[sym := Visits(visited, sym) + 1];
      }
    }

    /** The same; `start` is what was visited before this report. */
    method TouchAfter(sym: string, hash: map<string, nat>, ghost start: map<string, nat>)
      returns (hash': map<string, nat>)
      requires visited == Bumped(start, hash.Keys)
      modifies this`visited
      ensures hash'.Keys == hash.Keys + {sym} && visited == Bumped(start, hash'.Keys)
    {
      BumpedNext(start, hash.Keys, sym);
      hash' := Touch(sym, hash);
    }

    /** The named functions that the report knows. */
    method AddNamed(names: seq<string>) returns (hash: map<string, nat>)
      modifies this`visited
      ensures hash.Keys == NamedIn(funcs.Keys, names) && visited == Bumped(old(visited), hash.Keys)
    {
      hash := map[];
      for k := 0 to |names|
        invariant hash.Keys == NamedIn(funcs.Keys, names[..k])
        invariant visited == Bumped(old(visited), hash.Keys)
      {
        NamedNext(funcs.Keys, names, k);
        if names[k] in funcs {
          hash := TouchAfter(names[k], hash, old(visited));
        }
      }
      assert names[..|names|] == names;
    }

    /** All functions that match one pattern; `start` is what was visited before this report. */
    method AddMatching(hash: map<string, nat>, pattern: string, all: seq<string>, matches: (string, string) -> bool,
                       ghost start: map<string, nat>)
      returns (hash': map<string, nat>)
      requires visited == Bumped(start, hash.Keys)
      modifies this`visited
      ensures hash'.Keys == hash.Keys + MatchedIn(all, pattern, matches) && visited == Bumped(start, hash'.Keys)
    {
      hash' := hash;
      for k := 0 to |all|
        invariant hash'.Keys == hash.Keys + MatchedIn(all[..k], pattern, matches)
        invariant visited == Bumped(start, hash'.Keys)
      {
        MatchedNext(all, k, pattern, matches);
        if matches(pattern, all[k]) {
          hash' := TouchAfter(all[k], hash', start);
        }
      }
      assert all[..|all|] == all;
    }

    /** The functions of a report: those named, and those matching a pattern, none of them twice. */
    method CollectKeys(names: seq<string>, patterns: seq<string>, all: seq<string>, matches: (string, string) -> bool)
      returns (hash: map<string, nat>)
      requires Listing(all, funcs.Keys)
      modifies this`visited
      ensures hash.Keys == Group(funcs.Keys, names, patterns, matches)
      ensures visited == Bumped(old(visited), hash.Keys)
    {
      hash := AddNamed(names);
      for p := 0 to |patterns|
        invariant hash.Keys == Group(funcs.Keys, names, patterns[..p], matches)
        invariant visited == Bumped(old(visited), hash.Keys)
      {
        hash := AddMatching(hash, patterns[p], all, matches, old(visited));
        GroupNext(funcs.Keys, names, patterns, p, matches, all);
      }
      assert patterns[..|patterns|] == patterns;
    }

    /**
     `print_func_keys` on keys sorted by falling share: it stops behind the first function
     below the limit, which is still added up but not shown.
     */
    method PrintFuncKeys(order: seq<string>, limit: real) returns (sumPercent: real, sumNs: real, shown: nat)
      requires forall k :: 0 <= k < |order| ==> order[k] in funcs
      requires Falling(order, Percents(funcs))
      ensures shown <= |order|
      ensures forall k :: 0 <= k < |order| ==> (k < shown <==> Percents(funcs)(order[k]) >= limit)
      ensures var added := if shown < |order| then shown + 1 else shown;
        && sumPercent == SumSeq(order[..added], Percents(funcs))
        && sumNs == SumSeq(order[..added], Nanosecs(funcs))
    {
      sumPercent, sumNs, shown := 0.0, 0.0, 0;
      while shown < |order|
        invariant shown <= |order|
        invariant forall k :: 0 <= k < shown ==> Percents(funcs)(order[k]) >= limit
        invariant sumPercent == SumSeq(order[..shown], Percents(funcs))
        invariant sumNs == SumSeq(order[..shown], Nanosecs(funcs))
      {
        var cost := funcs[order[shown]];
        assert order[..shown + 1][..shown] == order[..shown];
        sumPercent := sumPercent + cost.percent;
        sumNs := sumNs + cost.nanosec;
        if cost.percent < limit {
          return;
        }
        shown := shown + 1;
      }
    }

    /** No share is negative: limit 0 never stops a printout. */
    ghost predicate SharesNonNegative()
      reads this`funcs
    {
      forall sym :: sym in funcs ==> funcs[sym].percent >= 0.0
    }

    /** Whatever was collected, no function has a negative share. */
    lemma CollectedIsNonNegative(lines: seq<Line>)
      requires Collected(lines)
      ensures SharesNonNegative()
    {
      forall sym | sym in funcs
        ensures funcs[sym].percent >= 0.0
      {
        ShareNonNegative(lines, sym);
      }
    }

    /** A printout with limit 0 adds up exactly the functions it was given. */
    method PrintAll(keys: set<string>, order: seq<string>) returns (sumPercent: real, sumNs: real)
      requires keys <= funcs.Keys && Listing(order, keys) && Falling(order, Percents(funcs)) && SharesNonNegative()
      ensures sumPercent == Sum(keys, Percents(funcs)) && sumNs == Sum(keys, Nanosecs(funcs))
    {
      var shown;
      sumPercent, sumNs, shown := PrintFuncKeys(order, 0.0);
      assert forall k :: 0 <= k < |order| ==> Percents(funcs)(order[k]) >= 0.0;
      assert order[..|order|] == order;
      SumOfListing(order, keys, Percents(funcs));
      SumOfListing(order, keys, Nanosecs(funcs));
    }

    /** The group reports, limit 0: `show_report_keys` for each of them. */
    method ShowGroups(groups: seq<GroupSpec>, all: seq<string>, matches: (string, string) -> bool,
                      sort: set<string> -> seq<string>)
      returns (total: real, ghost gs: seq<set<string>>)
      requires Listing(all, funcs.Keys) && Sorts(sort, Percents(funcs)) && SharesNonNegative() && visited == map[]
      modifies this`visited
      ensures |gs| == |groups|
      ensures forall i :: 0 <= i < |groups| ==> gs[i] == Group(funcs.Keys, groups[i].names, groups[i].patterns, matches)
      ensures visited == VisitedAfter(gs) && total == GroupTotal(gs, Percents(funcs))
    {
      total, gs := 0.0, [];
      for i := 0 to |groups|
        invariant |gs| == i
        invariant forall k :: 0 <= k < i ==> gs[k] == Group(funcs.Keys, groups[k].names, groups[k].patterns, matches)
        invariant visited == VisitedAfter(gs) && total == GroupTotal(gs, Percents(funcs))
      {
        var hash := CollectKeys(groups[i].names, groups[i].patterns, all, matches);
        var sumPercent, sumNs := PrintAll(hash.Keys, sort(hash.Keys));
        total := total + sumPercent;
        assert (gs + [hash.Keys])[..i] == gs;
        gs := gs + [hash.Keys];
      }
    }

    /** `show_negative_report`: the functions that are not in the visited hash. */
    method ShowNegative(all: seq<string>, sort: set<string> -> seq<string>) returns (sumPercent: real)
      requires Listing(all, funcs.Keys) && Sorts(sort, Percents(funcs)) && SharesNonNegative()
      ensures sumPercent == Sum(Unvisited(funcs.Keys, visited), Percents(funcs))
    {
      var negKeys: set<string> := {};
      for k := 0 to |all|
        invariant negKeys == set sym | sym in all[..k] && sym !in visited
      {
        assert all[..k + 1] == all[..k] + [all[k]];
        if all[k] !in visited {
          negKeys := negKeys + {all[k]};
        }
      }
      assert all[..|all|] == all;
      assert negKeys == Unvisited(funcs.Keys, visited);
      var sumNs;
      sumPercent, sumNs := PrintAll(negKeys, sort(negKeys));
    }

    /**
     The group reports and then the negative one: together they add up each function's share once
     for every group report it is in, and once if it is in none.
     */
    method ShowReports(groups: seq<GroupSpec>, all: seq<string>, matches: (string, string) -> bool,
                       sort: set<string> -> seq<string>)
      returns (total: real, ghost gs: seq<set<string>>)
      requires Listing(all, funcs.Keys) && Sorts(sort, Percents(funcs)) && SharesNonNegative()
      modifies this`visited
      ensures |gs| == |groups|
      ensures forall i :: 0 <= i < |groups| ==> gs[i] == Group(funcs.Keys, groups[i].names, groups[i].patterns, matches)
      ensures forall sym :: Visits(visited, sym) == Appearances(gs, sym)
      ensures total == Sum(funcs.Keys, AtLeastOnce(gs, Percents(funcs)))
    {
      visited := map[];
      total, gs := ShowGroups(groups, all, matches, sort);
      var negative := ShowNegative(all, sort);
      total := total + negative;
      ReportsPartitionShares(gs, funcs.Keys, Percents(funcs));
      forall sym
        ensures Visits(visited, sym) == Appearances(gs, sym)
      {
        VisitsAreAppearances(gs, sym);
      }
    }
  }

  /**
   The whole program: lines are collected and reported on in groups.  The printed sums add up each
   mentioned symbol's share, once for every group it is in and once if it is in none.  `listing` and `sort` stand for
   the language's own `keys` and `sort`.
   */
  method ReportOn(nanosec: real, lines: seq<Line>, groups: seq<GroupSpec>, matches: (string, string) -> bool,
                  listing: set<string> -> seq<string>, sort: map<string, Cost> -> set<string> -> seq<string>)
    returns (stats: Stats, total: real, ghost gs: seq<set<string>>)
    requires Lists(listing) && SortsAny(sort)
    ensures stats.Collected(lines) && stats.nanosec == nanosec
    ensures |gs| == |groups| && forall i :: 0 <= i < |groups| ==>
      gs[i] == Group(stats.funcs.Keys, groups[i].names, groups[i].patterns, matches)
    ensures forall sym :: Visits(stats.visited, sym) == Appearances(gs, sym) == |ReportsOf(gs, sym)|
    ensures total == Sum(stats.funcs.Keys, AtLeastOnce(gs, Shares(lines)))
  {
    stats := new Stats(nanosec);
    stats.CollectReport(lines);
    stats.CollectedIsNonNegative(lines);
    var funcs := stats.funcs;
    SortsThese(sort, funcs);
    total, gs := stats.ShowReports(groups, listing(funcs.Keys), matches, sort(funcs));
    SumOfShares(funcs, lines, nanosec, gs);
    forall sym
      ensures Appearances(gs, sym) == |ReportsOf(gs, sym)|
    {
      AppearancesIsCount(gs, sym);
    }
  }

  lemma SumOfShares(funcs: map<string, Cost>, lines: seq<Line>, nanosec: real, gs: seq<set<string>>)
    requires Tallied(funcs, lines, nanosec)
    ensures Sum(funcs.Keys, AtLeastOnce(gs, Percents(funcs))) == Sum(funcs.Keys, AtLeastOnce(gs, Shares(lines)))
  {
    var f, g := AtLeastOnce(gs, Percents(funcs)), AtLeastOnce(gs, Shares(lines));
    forall sym | sym in funcs.Keys
      ensures f(sym) == g(sym)
    {
      assert Percents(funcs)(sym) == Shares(lines)(sym);
    }
    SumSame(funcs.Keys, f, g);
  }

  ghost predicate Lists(listing: set<string> -> seq<string>) {
    forall keys: set<string> :: Listing(listing(keys), keys)
  }

  ghost predicate SortsAny(sort: map<string, Cost> -> set<string> -> seq<string>) {
    forall funcs: map<string, Cost> :: Sorts(sort(funcs), Percents(funcs))
  }

  lemma SortsThese(sort: map<string, Cost> -> set<string> -> seq<string>, funcs: map<string, Cost>)
    requires SortsAny(sort)
    ensures Sorts(sort(funcs), Percents(funcs))
  {
  }

  function Shares(lines: seq<Line>): string -> real {
    (sym: string) => ShareOf(lines, sym)
  }

  lemma {:induction false} ShareNonNegative(lines: seq<Line>, sym: string)
    ensures ShareOf(lines, sym) >= 0.0
  {
    if lines != [] {
      ShareNonNegative(lines[..|lines| - 1], sym);
    }
  }

  lemma {:induction false} NotMentioned(lines: seq<Line>, sym: string)
    requires !Mentioned(lines, sym)
    ensures ShareOf(lines, sym) == 0.0
  {
    if lines != [] {
      var n := |lines| - 1;
      assert lines == lines[..n] + [lines[n]];
      SharesNext(lines[..n], lines[n]);
      NotMentioned(lines[..n], sym);
    }
  }

  // ------------------------------------------------------------------
  // Groups and visits

  function Visits(counts: map<string, nat>, sym: string): nat {
    if sym in counts then counts[sym] else 0
  }

  /** A group report: functions by name, and patterns. */
  datatype GroupSpec = GroupSpec(names: seq<string>, patterns: seq<string>)

  /** Perl's sort by falling share, in whatever order it puts equals. */
  ghost predicate Sorts(sort: set<string> -> seq<string>, f: string -> real) {
    forall keys: set<string> :: Listing(sort(keys), keys) && Falling(sort(keys), f)
  }

  /** Every element once, in some order. */
  ghost predicate Listing(order: seq<string>, keys: set<string>) {
    && (forall k :: 0 <= k < |order| ==> order[k] in keys)
    && (forall sym :: sym in keys ==> sym in order)
    && (forall j, k :: 0 <= j < k < |order| ==> order[j] != order[k])
  }

  /** The functions a group report is about. */
  ghost function Group(keys: set<string>, names: seq<string>, patterns: seq<string>,
                       matches: (string, string) -> bool): set<string>
  {
    set sym | sym in keys && (sym in names || exists p :: p in patterns && matches(p, sym))
  }

  function NamedIn(keys: set<string>, names: seq<string>): set<string> {
    set sym | sym in keys && sym in names
  }

  function MatchedIn(all: seq<string>, pattern: string, matches: (string, string) -> bool): set<string> {
    set sym | sym in all && matches(pattern, sym)
  }

  /** One more visit for each of these functions. */
  function Bumped(counts: map<string, nat>, syms: set<string>): map<string, nat> {
    map sym | sym in counts.Keys + syms :: Visits(counts, sym) + if sym in syms then 1 else 0
  }

  lemma NamedNext(keys: set<string>, names: seq<string>, k: nat)
    requires k < |names|
    ensures NamedIn(keys, names[..k + 1]) == NamedIn(keys, names[..k]) + if names[k] in keys then {names[k]} else {}
  {
    assert names[..k + 1] == names[..k] + [names[k]];
  }

  lemma MatchedNext(all: seq<string>, k: nat, pattern: string, matches: (string, string) -> bool)
    requires k < |all|
    ensures MatchedIn(all[..k + 1], pattern, matches) ==
      MatchedIn(all[..k], pattern, matches) + if matches(pattern, all[k]) then {all[k]} else {}
  {
    assert all[..k + 1] == all[..k] + [all[k]];
  }

  lemma GroupNext(keys: set<string>, names: seq<string>, patterns: seq<string>, p: nat,
                  matches: (string, string) -> bool, all: seq<string>)
    requires p < |patterns| && Listing(all, keys)
    ensures Group(keys, names, patterns[..p + 1], matches) ==
      Group(keys, names, patterns[..p], matches) + MatchedIn(all, patterns[p], matches)
  {
    assert patterns[..p + 1] == patterns[..p] + [patterns[p]];
    forall sym
      ensures sym in Group(keys, names, patterns[..p + 1], matches) <==>
        sym in Group(keys, names, patterns[..p], matches) + MatchedIn(all, patterns[p], matches)
    {
      if sym in keys && exists q :: q in patterns[..p + 1] && matches(q, sym) {
        var q :| q in patterns[..p + 1] && matches(q, sym);
        assert q in patterns[..p] || q == patterns[p];
      }
      if sym in keys && exists q :: q in patterns[..p] && matches(q, sym) {
        var q :| q in patterns[..p] && matches(q, sym);
        assert q in patterns[..p + 1];
      }
      if sym in all && matches(patterns[p], sym) {
        assert patterns[p] in patterns[..p + 1];
      }
    }
  }

  lemma BumpedNext(counts: map<string, nat>, syms: set<string>, sym: string)
    ensures Bumped(counts, syms + {sym}) ==
      if sym in syms then Bumped(counts, syms)
      else Bumped(counts, syms)[sym := Visits(Bumped(counts, syms), sym) + 1]
  {
    if sym in syms {
      assert syms + {sym} == syms;
    }
  }

  // ------------------------------------------------------------------
  // Sums over a printed list

  function SumSeq(order: seq<string>, f: string -> real): real {
    if order == [] then 0.0 else SumSeq(order[..|order| - 1], f) + f(order[|order| - 1])
  }

  predicate Falling(order: seq<string>, f: string -> real) {
    forall j, k :: 0 <= j < k < |order| ==> f(order[j]) >= f(order[k])
  }

  /** Printed in whatever order, the whole list adds up to the sum over its functions. */
  lemma {:induction false} SumOfListing(order: seq<string>, keys: set<string>, f: string -> real)
    requires Listing(order, keys)
    ensures SumSeq(order, f) == Sum(keys, f)
  {
    if order == [] {
      assert keys == {};
    } else {
      var n := |order| - 1;
      var k := order[n];
      forall sym | sym in keys - {k}
        ensures sym in order[..n]
      {
        assert sym in order;
      }
      SumOfListing(order[..n], keys - {k}, f);
      SumTake(keys, f, k);
    }
  }

  // ------------------------------------------------------------------
  // All group reports and the negative report

  /** The sums printed by reports about these groups. */
  ghost function GroupTotal(groups: seq<set<string>>, f: string -> real): real {
    if groups == [] then 0.0 else GroupTotal(groups[..|groups| - 1], f) + Sum(groups[|groups| - 1], f)
  }

  /** How many reports a function is in. */
  function Appearances(groups: seq<set<string>>, sym: string): nat {
    if groups == [] then 0
    else Appearances(groups[..|groups| - 1], sym) + if sym in groups[|groups| - 1] then 1 else 0
  }

  predicate AppearsIn(groups: seq<set<string>>, i: nat, sym: string)
    requires i < |groups|
  {
    sym in groups[i]
  }

  /** The reports that a function is in. */
  ghost function ReportsOf(groups: seq<set<string>>, sym: string): set<nat> {
    set i: nat | i < |groups| && AppearsIn(groups, i, sym)
  }

  /** Each report that a function is in counts once. */
  lemma {:induction false} AppearancesIsCount(groups: seq<set<string>>, sym: string)
    ensures Appearances(groups, sym) == |ReportsOf(groups, sym)|
  {
    if groups == [] {
      assert ReportsOf(groups, sym) == {};
    } else {
      var n := |groups| - 1;
      AppearancesIsCount(groups[..n], sym);
      assert forall i: nat :: i < n ==> AppearsIn(groups, i, sym) == AppearsIn(groups[..n], i, sym);
      assert ReportsOf(groups, sym) == ReportsOf(groups[..n], sym) + if sym in groups[n] then {n} else {};
    }
  }

  /** One report prints the sum over its functions, and several print their sums together. */
  lemma {:induction false} GroupTotalsAddUp(groups: seq<set<string>>, more: seq<set<string>>, f: string -> real)
    ensures forall g :: g in more ==> GroupTotal([g], f) == Sum(g, f)
    ensures GroupTotal(groups + more, f) == GroupTotal(groups, f) + GroupTotal(more, f)
  {
    if more == [] {
      assert groups + more == groups;
    } else {
      var n := |more| - 1;
      GroupTotalsAddUp(groups, more[..n], f);
      assert (groups + more)[..|groups + more| - 1] == groups + more[..n];
    }
  }

  /** `%func_visited` after the reports, starting empty. */
  ghost function VisitedAfter(groups: seq<set<string>>): map<string, nat> {
    if groups == [] then map[] else Bumped(VisitedAfter(groups[..|groups| - 1]), groups[|groups| - 1])
  }

  /** A function counts as visited exactly when some report contains it, and as often as reports do. */
  lemma {:induction false} VisitsAreAppearances(groups: seq<set<string>>, sym: string)
    ensures Visits(VisitedAfter(groups), sym) == Appearances(groups, sym)
    ensures sym in VisitedAfter(groups) <==> Appearances(groups, sym) > 0
  {
    if groups != [] {
      VisitsAreAppearances(groups[..|groups| - 1], sym);
    }
  }

  ghost function Weighted(groups: seq<set<string>>, f: string -> real): string -> real {
    (sym: string) => f(sym) * Appearances(groups, sym) as real
  }

  ghost function AtLeastOnce(groups: seq<set<string>>, f: string -> real): string -> real {
    (sym: string) => if Appearances(groups, sym) == 0 then f(sym) else f(sym) * Appearances(groups, sym) as real
  }

  lemma {:induction false} GroupsAddUp(groups: seq<set<string>>, keys: set<string>, f: string -> real)
    requires forall i :: 0 <= i < |groups| ==> groups[i] <= keys
    ensures GroupTotal(groups, f) == Sum(keys, Weighted(groups, f))
  {
    if groups == [] {
      SumOfZeros(keys, Weighted(groups, f));
    } else {
      var init, last := groups[..|groups| - 1], groups[|groups| - 1];
      GroupsAddUp(init, keys, f);
      var part := (sym: string) => if sym in last then f(sym) else 0.0;
      SumPart(last, keys, f, part);
      WeightedNext(groups, f, part);
      SumPlus(keys, Weighted(init, f), part, Weighted(groups, f));
    }
  }

  lemma WeightedNext(groups: seq<set<string>>, f: string -> real, part: string -> real)
    requires groups != []
    requires forall sym :: part(sym) == if sym in groups[|groups| - 1] then f(sym) else 0.0
    ensures forall sym :: Weighted(groups, f)(sym) == Weighted(groups[..|groups| - 1], f)(sym) + part(sym)
  {
    var init := groups[..|groups| - 1];
    forall sym
      ensures Weighted(groups, f)(sym) == Weighted(init, f)(sym) + part(sym)
    {
      OneMore(f(sym), Appearances(init, sym));
    }
  }

  lemma OneMore(x: real, n: nat)
    ensures x * (n + 1) as real == x * n as real + x
  {
  }

  lemma {:induction false} SumOfZeros(keys: set<string>, f: string -> real)
    requires forall k :: k in keys ==> f(k) == 0.0
    ensures Sum(keys, f) == 0.0
    decreases |keys|
  {
    if keys != {} {
      var k :| k in keys;
      SumTake(keys, f, k);
      SumOfZeros(keys - {k}, f);
    }
  }

  /** The negative report is about the functions that no group report visited. */
  ghost function Unvisited(keys: set<string>, visited: map<string, nat>): set<string> {
    set sym | sym in keys && sym !in visited
  }

  lemma ShareCounted(groups: seq<set<string>>, keys: set<string>, f: string -> real, sym: string)
    requires sym in keys
    ensures AtLeastOnce(groups, f)(sym) ==
      Weighted(groups, f)(sym) + if sym in Unvisited(keys, VisitedAfter(groups)) then f(sym) else 0.0
  {
    VisitsAreAppearances(groups, sym);
  }

  /**
   Group reports and negative report together: each function's share counts once for each report
   that contains it, and once if none does.
   */
  lemma ReportsPartitionShares(groups: seq<set<string>>, keys: set<string>, f: string -> real)
    requires forall i :: 0 <= i < |groups| ==> groups[i] <= keys
    ensures GroupTotal(groups, f) + Sum(Unvisited(keys, VisitedAfter(groups)), f) == Sum(keys, AtLeastOnce(groups, f))
  {
    var rest := Unvisited(keys, VisitedAfter(groups));
    var part := (sym: string) => if sym in rest then f(sym) else 0.0;
    GroupsAddUp(groups, keys, f);
    SumPart(rest, keys, f, part);
    forall sym | sym in keys
      ensures AtLeastOnce(groups, f)(sym) == Weighted(groups, f)(sym) + part(sym)
    {
      ShareCounted(groups, keys, f, sym);
    }
    SumPlus(keys, Weighted(groups, f), part, AtLeastOnce(groups, f));
  }
}
