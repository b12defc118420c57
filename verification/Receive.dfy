/**
 The receive loops of the sink: what they count when some calls return EAGAIN,
 and what the payload check makes of the messages they deliver.
 */
module Receive {
  import opened Wire
  import opened Scatter
  import opened Sink
  import opened Streams
  import opened Flood

  /** A `uint64_t` returned as an `int`: the low 32 bits, read as two's complement. */
  function AsInt(x: int): int {
    var low := x % TWO64 % TWO32;
    if low < TWO31 then low else low - TWO32
  }

  /** `return (i - r->try_again)`: the subtraction is unsigned, the result an `int`. */
  lemma DifferenceFits(cnt: nat, again: nat)
    requires cnt < TWO31 && again < TWO31
    ensures AsInt(cnt - again) == cnt - again
  {
    var x := cnt - again;
    if x < 0 {
      assert x % TWO64 == x + TWO64;
      assert (x + TWO64) % TWO32 == x + TWO32 by {
        assert x + TWO64 == (TWO32 - 1) * TWO32 + (x + TWO32);
      }
    }
  }

  // ------------------------------------------------------------------
  // read, recvfrom and recv

  /** The answer of one call: EAGAIN, some bytes, or another error. */
  datatype Answer = Again | Got(bytes: nat) | Error

  datatype Report = Exit | Report(packets: int, bytes: nat, tryAgain: nat)

  function Successes(answers: seq<Answer>): nat {
    if answers == [] then 0
    else Successes(answers[..|answers| - 1]) + Bit(answers[|answers| - 1].Got?)
  }

  function TotalBytes(answers: seq<Answer>): nat {
    if answers == [] then 0
    else
      var a := answers[|answers| - 1];
      TotalBytes(answers[..|answers| - 1]) + if a.Got? then a.bytes else 0
  }

  /** One answer counts for what it brings, and counts add up. */
  lemma {:induction false} AnswersAddUp(answers: seq<Answer>, more: seq<Answer>)
    ensures forall a: Answer :: Successes([a]) == Bit(a.Got?) && TotalBytes([a]) == if a.Got? then a.bytes else 0
    ensures Successes(answers + more) == Successes(answers) + Successes(more)
    ensures TotalBytes(answers + more) == TotalBytes(answers) + TotalBytes(more)
  {
    if more == [] {
      assert answers + more == answers;
    } else {
      var n := |more| - 1;
      AnswersAddUp(answers, more[..n]);
      assert (answers + more)[..|answers + more| - 1] == answers + more[..n];
    }
  }

  /** Without errors, all calls succeed exactly when none of them returns EAGAIN. */
  lemma {:induction false} SuccessesPlusAgains(answers: seq<Answer>)
    requires forall k :: 0 <= k < |answers| ==> !answers[k].Error?
    ensures Successes(answers) <= |answers|
    ensures Successes(answers) == |answers| <==> forall k :: 0 <= k < |answers| ==> answers[k].Got?
  {
    if answers != [] {
      SuccessesPlusAgains(answers[..|answers| - 1]);
    }
  }

  /** `sink_with_read`, `sink_with_recvfrom` and `sink_with_recv`. */
  method SinkWithRead(count: nat, answers: seq<Answer>) returns (r: Report)
    requires count <= |answers| && count < TWO31
    ensures r.Exit? <==> exists k :: 0 <= k < count && answers[k].Error?
    ensures r.Report? ==>
      && r.packets == Successes(answers[..count])
      && r.bytes == TotalBytes(answers[..count])
      && r.tryAgain == count - Successes(answers[..count])
      && (r.packets == count <==> forall k :: 0 <= k < count ==> answers[k].Got?)
  {
    var total: nat, tryAgain: nat := 0, 0;
    for i := 0 to count
      invariant forall k :: 0 <= k < i ==> !answers[k].Error?
      invariant total == TotalBytes(answers[..i])
      invariant tryAgain + Successes(answers[..i]) == i
    {
      assert answers[..i + 1][..i] == answers[..i];
      match answers[i]
      case Again => tryAgain := tryAgain + 1;
      case Got(res) => total := total + res;
      case Error => return Exit;
    }
    SuccessesPlusAgains(answers[..count]);
    DifferenceFits(count, tryAgain);
    r := Report(AsInt(count - tryAgain), total, tryAgain);
  }

  // ------------------------------------------------------------------
  // recvmsg

  /** A received message: its segments, the memory at that time, and how many bytes arrived. */
  datatype Message = Message(iov: seq<Iovec>, mem: Memory, len: nat)

  ghost predicate Delivered(m: Message, check: int) {
    Checkable(check, m.iov, m.mem, m.len)
  }

  ghost predicate Readable(ms: seq<Message>, check: int) {
    forall k :: 0 <= k < |ms| ==> Delivered(ms[k], check)
  }

  /** The bytes that arrived. */
  ghost function Bytes(m: Message): (data: seq<byte>)
    requires InMemory(m.mem, m.iov) && m.len <= Total(m.iov)
    ensures |data| == m.len
  {
    Flat(m.mem, m.iov)[..m.len]
  }

  /** The messages as the packets they carry. */
  ghost function Arrivals(check: int, ms: seq<Message>): (events: seq<Event>)
    requires Readable(ms, check)
    ensures |events| == |ms| && forall k :: 0 <= k < |ms| ==> events[k] == Packet(Bytes(ms[k]))
  {
    if ms == [] then []
    else
      var m := ms[|ms| - 1];
      assert Delivered(m, check);
      Arrivals(check, ms[..|ms| - 1]) + [Packet(Bytes(m))]
  }

  /** What the checker makes of messages; without checking it does not look at them. */
  ghost function PlayMessages(s: Stats, check: int, ms: seq<Message>): Outcome
    requires Readable(ms, check)
  {
    if check == 0 then Running(s) else Play(s, check, Arrivals(check, ms))
  }

  lemma PlayNext(s: Stats, check: int, ms: seq<Message>, m: Message)
    requires Readable(ms, check)
    requires Delivered(m, check)
    ensures PlayMessages(s, check, ms + [m]) ==
      match PlayMessages(s, check, ms)
      case Exited => Exited
      case Running(t) =>
        if check == 0 then Running(t)
        else
          var u := Checked(t, check, Bytes(m));
          if check > 2 && !Clean(u) then Exited else Running(u)
  {
    assert (ms + [m])[..|ms|] == ms;
  }

  function LengthSum(ms: seq<Message>): nat {
    if ms == [] then 0 else LengthSum(ms[..|ms| - 1]) + ms[|ms| - 1].len
  }

  /** The answer of one `recvmsg` or `recvmmsg` call. */
  datatype BatchAnswer = NoneYet | Messages(ms: seq<Message>) | Failure

  /** The messages delivered by some calls, in order. */
  function AllMessages(answers: seq<BatchAnswer>): seq<Message> {
    if answers == [] then []
    else
      var a := answers[|answers| - 1];
      if a.Messages? then AllMessages(answers[..|answers| - 1]) + a.ms else AllMessages(answers[..|answers| - 1])
  }

  function NoneYets(answers: seq<BatchAnswer>): nat {
    if answers == [] then 0
    else NoneYets(answers[..|answers| - 1]) + Bit(answers[|answers| - 1].NoneYet?)
  }

  /** The messages of one call are its own, in its order... */
  lemma MessagesOfOne(a: BatchAnswer)
    ensures AllMessages([a]) == if a.Messages? then a.ms else []
    ensures NoneYets([a]) == if a.NoneYet? then 1 else 0
  {
    assert [a][..0] == [];
  }

  lemma MessagesNext(answers: seq<BatchAnswer>, a: BatchAnswer)
    ensures AllMessages(answers + [a]) == AllMessages(answers) + if a.Messages? then a.ms else []
    ensures NoneYets(answers + [a]) == NoneYets(answers) + Bit(a.NoneYet?)
  {
    assert (answers + [a])[..|answers|] == answers;
  }

  /** ...and those of several calls follow each other. */
  lemma {:induction false} MessagesInOrder(answers: seq<BatchAnswer>, more: seq<BatchAnswer>)
    ensures AllMessages(answers + more) == AllMessages(answers) + AllMessages(more)
  {
    if more == [] {
      assert answers + more == answers;
    } else {
      var n := |more| - 1;
      var init, a := more[..n], more[n];
      MessagesInOrder(answers, init);
      assert answers + more == answers + init + [a] && more == init + [a];
      MessagesNext(answers + init, a);
      MessagesNext(init, a);
      Regroup(AllMessages(answers), AllMessages(init), if a.Messages? then a.ms else []);
    }
  }

  lemma {:induction false} NoneYetsAddUp(answers: seq<BatchAnswer>, more: seq<BatchAnswer>)
    ensures NoneYets(answers + more) == NoneYets(answers) + NoneYets(more)
  {
    if more == [] {
      assert answers + more == answers;
    } else {
      var n := |more| - 1;
      var init, a := more[..n], more[n];
      NoneYetsAddUp(answers, init);
      assert answers + more == answers + init + [a] && more == init + [a];
      MessagesNext(answers + init, a);
      MessagesNext(init, a);
    }
  }

  /** A message alone counts with its own length. */
  lemma OneLength(m: Message)
    ensures LengthSum([m]) == m.len
  {
  }

  /** Each call delivers at most `batch` messages, all of them readable by the checker. */
  ghost predicate Legal(answers: seq<BatchAnswer>, batch: nat, check: int) {
    forall k :: 0 <= k < |answers| ==> answers[k].Messages? ==>
      |answers[k].ms| <= batch && Readable(answers[k].ms, check)
  }

  lemma {:induction false} AllDelivered(answers: seq<BatchAnswer>, batch: nat, check: int)
    requires Legal(answers, batch, check)
    ensures Readable(AllMessages(answers), check)
  {
    if answers != [] {
      AllDelivered(answers[..|answers| - 1], batch, check);
    }
  }

  lemma {:induction false} LengthSumSplit(a: seq<Message>, b: seq<Message>)
    ensures LengthSum(a + b) == LengthSum(a) + LengthSum(b)
  {
    if b == [] {
      assert a + b == a;
    } else {
      LengthSumSplit(a, b[..|b| - 1]);
      assert (a + b)[..|a + b| - 1] == a + b[..|b| - 1];
    }
  }

  /** Checks one message; the process may exit, and then the rest do not matter. */
  method CheckMessage(c: Checker, m: Message, ghost before: Stats, ghost ms: seq<Message>, ghost rest: seq<Message>)
    returns (exits: bool)
    requires Delivered(m, c.check) && Readable(ms, c.check) && Readable(ms + [m], c.check) && Readable(rest, c.check)
    requires PlayMessages(before, c.check, ms) == Running(c.State())
    modifies c
    ensures exits ==> PlayMessages(before, c.check, ms + [m] + rest) == Exited
    ensures !exits ==> PlayMessages(before, c.check, ms + [m]) == Running(c.State())
  {
    PlayNext(before, c.check, ms, m);
    exits := c.CheckPkt(m.iov, m.mem, m.len);
    if exits {
      ExitIsFinal(before, c.check, ms + [m], rest);
    }
  }

  /** Exiting is final: more messages do not bring the process back. */
  lemma {:induction false} ExitIsFinal(s: Stats, check: int, ms: seq<Message>, more: seq<Message>)
    requires Readable(ms, check)
    requires Readable(more, check)
    requires PlayMessages(s, check, ms) == Exited
    ensures PlayMessages(s, check, ms + more) == Exited
  {
    if more == [] {
      assert ms + more == ms;
    } else {
      var n := |more| - 1;
      var head, m := ms + more[..n], more[n];
      assert head + [m] == ms + more;
      assert Delivered(m, check);
      ExitIsFinal(s, check, ms, more[..n]);
      PlayNext(s, check, head, m);
    }
  }

  lemma {:induction false} AllMessagesPrefix(answers: seq<BatchAnswer>, k: nat, check: int) returns (rest: seq<Message>)
    requires k <= |answers|
    ensures AllMessages(answers) == AllMessages(answers[..k]) + rest
    ensures forall batch :: Legal(answers, batch, check) ==> Readable(rest, check)
  {
    if k == |answers| {
      assert answers[..k] == answers;
      rest := [];
    } else {
      var n := |answers| - 1;
      rest := AllMessagesPrefix(answers[..n], k, check);
      assert answers[..n][..k] == answers[..k];
      assert forall batch :: Legal(answers, batch, check) ==> Legal(answers[..n], batch, check);
      if answers[n].Messages? {
        Regroup(AllMessages(answers[..k]), rest, answers[n].ms);
        rest := rest + answers[n].ms;
      }
    }
  }

  lemma OneMore(check: int, earlier: seq<Message>, ms: seq<Message>, k: nat)
    requires k < |ms| && Readable(earlier, check) && Readable(ms, check)
    ensures Readable(earlier + ms[..k], check) && Readable(earlier + ms[..k + 1], check)
    ensures Delivered(ms[k], check) && Readable(ms[k + 1..], check)
    ensures earlier + ms[..k] + [ms[k]] == earlier + ms[..k + 1]
    ensures earlier + ms[..k + 1] + ms[k + 1..] == earlier + ms
    ensures LengthSum(ms[..k + 1]) == LengthSum(ms[..k]) + ms[k].len
  {
    assert ms[..k + 1][..k] == ms[..k];
  }

  /** The inner loop: lengths are added up and every message is checked, until the process exits. */
  method TakeMessages(c: Checker, ms: seq<Message>, ghost before: Stats, ghost earlier: seq<Message>)
    returns (exits: bool, total: nat)
    requires Readable(earlier, c.check)
    requires Readable(ms, c.check)
    requires PlayMessages(before, c.check, earlier) == Running(c.State())
    modifies c
    ensures exits ==> PlayMessages(before, c.check, earlier + ms) == Exited
    ensures !exits ==> total == LengthSum(ms) && PlayMessages(before, c.check, earlier + ms) == Running(c.State())
  {
    exits, total := false, 0;
    assert earlier + ms[..0] == earlier;
    for pkt := 0 to |ms|
      invariant total == LengthSum(ms[..pkt]) && Readable(earlier + ms[..pkt], c.check)
      invariant PlayMessages(before, c.check, earlier + ms[..pkt]) == Running(c.State())
    {
      total := total + ms[pkt].len;
      OneMore(c.check, earlier, ms, pkt);
      exits := CheckMessage(c, ms[pkt], before, earlier + ms[..pkt], ms[pkt + 1..]);
      if exits {
        return;
      }
    }
    assert ms[..|ms|] == ms;
  }

  predicate AnyFailure(answers: seq<BatchAnswer>) {
    exists k :: 0 <= k < |answers| && answers[k].Failure?
  }

  /** What is known of the loops after these answers. */
  ghost predicate Progress(c: Checker, before: Stats, answers: seq<BatchAnswer>, batch: nat,
                           cnt: nat, total: nat, tryAgain: nat)
    requires Legal(answers, batch, c.check)
    reads c
  {
    AllDelivered(answers, batch, c.check);
    && !AnyFailure(answers)
    && PlayMessages(before, c.check, AllMessages(answers)) == Running(c.State())
    && cnt == |AllMessages(answers)|
    && total == LengthSum(AllMessages(answers))
    && tryAgain == NoneYets(answers)
  }

  /** The process has exited over one of these answers. */
  ghost predicate Stopped(check: int, before: Stats, answers: seq<BatchAnswer>, batch: nat)
    requires Legal(answers, batch, check)
  {
    AllDelivered(answers, batch, check);
    AnyFailure(answers) || PlayMessages(before, check, AllMessages(answers)) == Exited
  }

  lemma StoppedStays(check: int, before: Stats, answers: seq<BatchAnswer>, batch: nat, k: nat)
    requires Legal(answers, batch, check) && k <= |answers| && Stopped(check, before, answers[..k], batch)
    ensures Stopped(check, before, answers, batch)
  {
    AllDelivered(answers[..k], batch, check);
    AllDelivered(answers, batch, check);
    if AnyFailure(answers[..k]) {
      var i :| 0 <= i < k && answers[..k][i].Failure?;
      assert answers[i].Failure?;
    } else {
      var rest := AllMessagesPrefix(answers, k, check);
      ExitIsFinal(before, check, AllMessages(answers[..k]), rest);
    }
  }

  /** One call and what follows it. */
  method TakeAnswer(c: Checker, answer: BatchAnswer, cnt: nat, total: nat, tryAgain: nat,
                    ghost before: Stats, ghost answers: seq<BatchAnswer>, ghost batch: nat)
    returns (exits: bool, cnt': nat, total': nat, tryAgain': nat)
    requires Legal(answers, batch, c.check) && Legal(answers + [answer], batch, c.check)
    requires Progress(c, before, answers, batch, cnt, total, tryAgain)
    modifies c
    ensures !exits ==> Progress(c, before, answers + [answer], batch, cnt', total', tryAgain')
    ensures exits ==> Stopped(c.check, before, answers + [answer], batch)
    ensures cnt' == cnt + (if answer.Messages? && !exits then |answer.ms| else 0)
    ensures tryAgain <= tryAgain' <= tryAgain + 1
  {
    AllDelivered(answers, batch, c.check);
    AllDelivered(answers + [answer], batch, c.check);
    assert (answers + [answer])[..|answers|] == answers;
    assert (answers + [answer])[|answers|] == answer;
    exits, cnt', total', tryAgain' := false, cnt, total, tryAgain;
    match answer
    case NoneYet =>
      tryAgain' := tryAgain + 1;
    case Failure =>
      exits := true;
    case Messages(ms) =>
      var sum;
      exits, sum := TakeMessages(c, ms, before, AllMessages(answers));
      if !exits {
        LengthSumSplit(AllMessages(answers), ms);
        total' := total + sum;
        cnt' := cnt + |ms|;
      }
  }

  /** `sink_with_recvmsg`: every call brings one message, EAGAIN or an error. */
  method SinkWithRecvmsg(c: Checker, count: nat, answers: seq<BatchAnswer>) returns (r: Report)
    requires count <= |answers| && count < TWO31 && Legal(answers[..count], 1, c.check)
    requires forall k :: 0 <= k < count && answers[k].Messages? ==> |answers[k].ms| == 1
    modifies c
    ensures r.Exit? <==> Stopped(c.check, old(c.State()), answers[..count], 1)
    ensures r.Report? ==>
      && Progress(c, old(c.State()), answers[..count], 1, |AllMessages(answers[..count])|, r.bytes, r.tryAgain)
      && r.packets == |AllMessages(answers[..count])| == count - r.tryAgain
  {
    ghost var before := c.State();
    var cnt: nat, total: nat, tryAgain: nat := 0, 0, 0;
    for i := 0 to count
      invariant Legal(answers[..i], 1, c.check)
      invariant Progress(c, before, answers[..i], 1, cnt, total, tryAgain)
      invariant cnt + tryAgain == i
    {
      LegalPrefix(answers, count, i, c.check);
      var exits;
      exits, cnt, total, tryAgain := TakeAnswer(c, answers[i], cnt, total, tryAgain, before, answers[..i], 1);
      if exits {
        StoppedStays(c.check, before, answers[..count], 1, i + 1);
        return Exit;
      }
      MessagesNext(answers[..i], answers[i]);
    }
    DifferenceFits(count, tryAgain);
    r := Report(AsInt(count - tryAgain), total, tryAgain);
  }

  lemma LegalPrefix(answers: seq<BatchAnswer>, count: nat, i: nat, check: int)
    requires i < count <= |answers| && Legal(answers[..count], 1, check)
    ensures answers[..i + 1] == answers[..i] + [answers[i]] == answers[..count][..i + 1]
    ensures Legal(answers[..i], 1, check) && Legal(answers[..i + 1], 1, check)
    ensures answers[i].Messages? ==> |answers[i].ms| <= 1
  {
    LegalNext(answers[..count], 1, i, check);
    assert answers[..count][..i] == answers[..i] && answers[..count][..i + 1] == answers[..i + 1];
  }

  datatype BatchReport = BatchExit | Waiting | BatchReport(packets: int, bytes: nat, tryAgain: nat)

  /**
   `sink_with_recvMmsg`: calls go on until `count` messages have come in.  EAGAIN passes are
   subtracted at the end although they never advanced the count.  When the answers run out
   first, the loop is still waiting.  `used` is how many calls were made.
   */
  method SinkWithRecvMmsg(c: Checker, count: nat, batch: nat, answers: seq<BatchAnswer>)
    returns (r: BatchReport, ghost used: nat)
    requires count + batch < TWO31 && |answers| < TWO31 && Legal(answers, batch, c.check)
    modifies c
    ensures used <= |answers|
    ensures r.BatchExit? <==> Stopped(c.check, old(c.State()), answers[..used], batch)
    ensures r.BatchReport? ==>
      var cnt := |AllMessages(answers[..used])|;
      && Progress(c, old(c.State()), answers[..used], batch, cnt, r.bytes, r.tryAgain)
      && count <= cnt && (count >= 1 ==> cnt < count + batch)
      && r.packets == cnt - r.tryAgain
      && (r.packets == cnt <==> forall k :: 0 <= k < used ==> !answers[k].NoneYet?)
    ensures r.Waiting? ==> used == |answers| && |AllMessages(answers)| < count
  {
    var exits, cnt, total, tryAgain;
    exits, cnt, total, tryAgain, used := BatchLoop(c, count, batch, answers);
    if exits {
      r := BatchExit;
    } else if cnt < count {
      assert answers[..used] == answers;
      r := Waiting;
    } else {
      NoNoneYets(answers[..used]);
      DifferenceFits(cnt, tryAgain);
      r := BatchReport(AsInt(cnt - tryAgain), total, tryAgain);
    }
  }

  /** The receive loop of `sink_with_recvMmsg`. */
  method BatchLoop(c: Checker, count: nat, batch: nat, answers: seq<BatchAnswer>)
    returns (exits: bool, cnt: nat, total: nat, tryAgain: nat, ghost used: nat)
    requires Legal(answers, batch, c.check)
    modifies c
    ensures used <= |answers| && tryAgain <= used && Legal(answers[..used], batch, c.check)
    ensures if exits then Stopped(c.check, old(c.State()), answers[..used], batch)
            else Progress(c, old(c.State()), answers[..used], batch, cnt, total, tryAgain)
    ensures !exits ==> cnt >= count || used == |answers|
    ensures !exits ==> if count == 0 then cnt == 0 else cnt < count + batch
  {
    ghost var before := c.State();
    cnt, total, tryAgain, used, exits := 0, 0, 0, 0, false;
    var next: nat := 0;
    while cnt < count && next < |answers|
      invariant next <= |answers| && used == next && tryAgain <= next && !exits
      invariant Legal(answers[..next], batch, c.check)
      invariant Progress(c, before, answers[..next], batch, cnt, total, tryAgain)
      invariant if count == 0 then cnt == 0 else cnt < count + batch
    {
      LegalNext(answers, batch, next, c.check);
      exits, cnt, total, tryAgain := TakeAnswer(c, answers[next], cnt, total, tryAgain, before, answers[..next], batch);
      next := next + 1;
      used := next;
      if exits {
        return;
      }
    }
  }

  lemma LegalNext(answers: seq<BatchAnswer>, batch: nat, n: nat, check: int)
    requires Legal(answers, batch, check) && n < |answers|
    ensures answers[..n + 1] == answers[..n] + [answers[n]]
    ensures Legal(answers[..n], batch, check) && Legal(answers[..n + 1], batch, check)
    ensures answers[n].Messages? ==> |answers[n].ms| <= batch
  {
  }

  lemma {:induction false} NoNoneYets(answers: seq<BatchAnswer>)
    ensures NoneYets(answers) == 0 <==> forall k :: 0 <= k < |answers| ==> !answers[k].NoneYet?
  {
    if answers != [] {
      NoNoneYets(answers[..|answers| - 1]);
    }
  }
}
