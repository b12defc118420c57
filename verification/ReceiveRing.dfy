/**
 The receive ring of the RDMA example: descriptors and buffer slots travel between the
 posted queue, the completion queue and the software, and the hardware writes packets
 into the slots whose descriptors it owns.
 */
module ReceiveRing {
  import opened Wire

  const ENTRY_SIZE: nat := 9000
  const RQ_NUM_DESC: nat := 512

  /** The memory at large. */
  type Memory = int -> byte

  function Read(mem: Memory, addr: int, n: nat): (data: seq<byte>)
    ensures |data| == n
  {
    seq(n, i requires 0 <= i < n => mem(addr + i))
  }

  function Write(mem: Memory, addr: int, data: seq<byte>): Memory {
    (a: int) => if addr <= a < addr + |data| then data[a - addr] else mem(a)
  }

  /** A posted receive descriptor, with the address of its only buffer. */
  datatype Desc = Desc(id: nat, addr: int)

  /** A work completion: `wr_id` and `byte_len`. */
  datatype Completion = Completion(id: nat, len: nat)

  datatype Option<T> = None | Some(value: T)

  /**
   `filled` is how many descriptors have been posted for the first time; `arrived` are the
   packets the hardware has written, and `handled` what software found in their slots.
   */
  datatype State = State(
    buf: int, mem: Memory, filled: nat,
    posted: seq<Desc>, cq: seq<Completion>, held: Option<Completion>,
    arrived: seq<seq<byte>>, handled: seq<seq<byte>>)

  function Initial(buf: int, mem: Memory): State {
    State(buf, mem, 0, [], [], None, [], [])
  }

  // ------------------------------------------------------------------
  // Steps

  /** `ibv_post_recv`, which needs room in the receive queue. */
  function Post(s: State, id: nat, addr: int): State {
    s.(posted := s.posted + [Desc(id, addr)])
  }

  /** The next descriptor is posted for the first time. */
  function WithOneMore(s: State): State {
    Post(s, s.filled, s.buf + ENTRY_SIZE * s.filled).(filled := s.filled + 1)
  }

  /** One turn of the initial loop. */
  ghost predicate Fill(s: State, s': State) {
    s.filled < RQ_NUM_DESC && s' == WithOneMore(s)
  }

  /** The hardware writes a packet through a posted descriptor and completes that. */
  function Written(s: State, i: nat, packet: seq<byte>): State
    requires i < |s.posted|
  {
    s.(mem := Write(s.mem, s.posted[i].addr, packet),
       posted := s.posted[..i] + s.posted[i + 1..],
       cq := s.cq + [Completion(s.posted[i].id, |packet|)],
       arrived := s.arrived + [packet])
  }

  /** A packet arrives. */
  ghost predicate Arrive(s: State, s': State, i: nat, packet: seq<byte>) {
    i < |s.posted| && |packet| <= ENTRY_SIZE && s' == Written(s, i, packet)
  }

  /** The oldest completion is in software's hands. */
  function Taken(s: State): State
    requires s.cq != []
  {
    s.(cq := s.cq[1..], held := Some(s.cq[0]))
  }

  /** `ibv_poll_cq` finds a completion; software starts on it after the initial loop. */
  ghost predicate Poll(s: State, s': State) {
    s.filled == RQ_NUM_DESC && s.held.None? && s.cq != [] && s' == Taken(s)
  }

  /** The packet in the slot has been handled and the descriptor is back in the queue. */
  function Returned(s: State): State
    requires s.held.Some?
  {
    var c := s.held.value;
    Post(s, c.id, s.buf + c.id * ENTRY_SIZE)
      .(held := None, handled := s.handled + [Read(s.mem, SlotAt(s.buf, c.id), c.len)])
  }

  /** Software has handled the packet in the slot and posts the descriptor back. */
  ghost predicate Repost(s: State, s': State) {
    s.held.Some? && s' == Returned(s)
  }

  ghost predicate Next(s: State, s': State) {
    || Fill(s, s')
    || (exists i: nat, packet: seq<byte> :: Arrive(s, s', i, packet))
    || Poll(s, s')
    || Repost(s, s')
  }

  ghost predicate IsRun(run: seq<State>) {
    && run != [] && (exists buf: int, mem: Memory :: run[0] == Initial(buf, mem))
    && forall k :: 0 <= k < |run| - 1 ==> Next(run[k], run[k + 1])
  }

  // ------------------------------------------------------------------
  // Conservation of descriptors

  function IdsOf<T>(xs: seq<T>, id: T -> nat): (ids: seq<nat>)
    ensures |ids| == |xs| && forall i :: 0 <= i < |ids| ==> ids[i] == id(xs[i])
  {
    seq(|xs|, i requires 0 <= i < |xs| => id(xs[i]))
  }

  function IdOfDesc(d: Desc): nat {
    d.id
  }

  function IdOfCompletion(c: Completion): nat {
    c.id
  }

  function PostedIds(posted: seq<Desc>): multiset<nat> {
    multiset(IdsOf(posted, IdOfDesc))
  }

  function CompletedIds(cq: seq<Completion>): multiset<nat> {
    multiset(IdsOf(cq, IdOfCompletion))
  }

  function HeldIds(held: Option<Completion>): multiset<nat> {
    if held.None? then multiset{} else multiset{held.value.id}
  }

  function FirstNumbers(n: nat): seq<nat> {
    seq(n, i requires 0 <= i < n => i)
  }

  function Upto(n: nat): multiset<nat> {
    multiset(FirstNumbers(n))
  }

  /** The completions software has still to handle, the one in its hands first. */
  function Pending(held: Option<Completion>, cq: seq<Completion>): seq<Completion> {
    if held.Some? then [held.value] + cq else cq
  }

  /** Every id in circulation is in exactly one place, and there only once. */
  predicate Conserved(posted: seq<Desc>, pending: seq<Completion>, filled: nat) {
    PostedIds(posted) + CompletedIds(pending) == Upto(filled)
  }

  function SlotAt(buf: int, id: nat): int {
    buf + id * ENTRY_SIZE
  }

  predicate Addressed(buf: int, posted: seq<Desc>) {
    forall i :: 0 <= i < |posted| ==> posted[i].addr == SlotAt(buf, posted[i].id)
  }

  /** The slot of a completion holds this packet. */
  predicate Holds(buf: int, mem: Memory, c: Completion, packet: seq<byte>) {
    c.len == |packet| <= ENTRY_SIZE && Read(mem, SlotAt(buf, c.id), c.len) == packet
  }

  /** The slots of these completions hold these packets, one by one. */
  predicate Holding(buf: int, mem: Memory, pending: seq<Completion>, packets: seq<seq<byte>>) {
    if pending == [] then packets == []
    else packets != [] && Holds(buf, mem, pending[0], packets[0]) && Holding(buf, mem, pending[1..], packets[1..])
  }

  /** The pending slots hold the packets that arrived last, in their order; the others were handled. */
  predicate Matches(buf: int, mem: Memory, pending: seq<Completion>, arrived: seq<seq<byte>>, handled: seq<seq<byte>>) {
    handled <= arrived && Holding(buf, mem, pending, arrived[|handled|..])
  }

  predicate Inv(s: State) {
    var pending := Pending(s.held, s.cq);
    && s.filled <= RQ_NUM_DESC && (s.held.Some? ==> s.filled == RQ_NUM_DESC)
    && Conserved(s.posted, pending, s.filled)
    && Addressed(s.buf, s.posted)
    && Matches(s.buf, s.mem, pending, s.arrived, s.handled)
  }

  lemma UptoNext(n: nat)
    ensures Upto(n + 1) == Upto(n) + multiset{n}
  {
    assert FirstNumbers(n + 1) == FirstNumbers(n) + [n];
  }

  lemma {:induction false} UptoCounts(n: nat, id: nat)
    ensures Upto(n)[id] == (if id < n then 1 else 0) && |Upto(n)| == n
  {
    if n > 0 {
      UptoCounts(n - 1, id);
      UptoNext(n - 1);
    }
  }

  /** An id may change sides. */
  lemma ChangeSides(a: multiset<nat>, x: multiset<nat>, b: multiset<nat>)
    ensures a + x + b == a + (b + x)
    ensures a + x + b == a + b + x
    ensures a + (x + b) == a + x + b
  {
  }

  /** Taking one descriptor out of the posted queue. */
  lemma PostedWithout(posted: seq<Desc>, i: nat)
    requires i < |posted|
    ensures PostedIds(posted) == PostedIds(posted[..i] + posted[i + 1..]) + multiset{posted[i].id}
  {
    var ids, without := IdsOf(posted, IdOfDesc), IdsOf(posted[..i] + posted[i + 1..], IdOfDesc);
    assert ids == ids[..i] + [ids[i]] + ids[i + 1..];
    assert without == ids[..i] + ids[i + 1..];
  }

  lemma PostedWith(posted: seq<Desc>, d: Desc)
    ensures PostedIds(posted + [d]) == PostedIds(posted) + multiset{d.id}
  {
    assert IdsOf(posted + [d], IdOfDesc) == IdsOf(posted, IdOfDesc) + [d.id];
  }

  lemma CompletedWith(cq: seq<Completion>, c: Completion)
    ensures CompletedIds(cq + [c]) == CompletedIds(cq) + multiset{c.id}
    ensures CompletedIds([c] + cq) == multiset{c.id} + CompletedIds(cq)
  {
    assert IdsOf(cq + [c], IdOfCompletion) == IdsOf(cq, IdOfCompletion) + [c.id];
    assert IdsOf([c] + cq, IdOfCompletion) == [c.id] + IdsOf(cq, IdOfCompletion);
  }

  // ------------------------------------------------------------------
  // Slots

  /** Different ids have disjoint slots. */
  lemma SlotsApart(buf: int, a: nat, b: nat)
    requires a != b
    ensures SlotAt(buf, a) + ENTRY_SIZE <= SlotAt(buf, b) || SlotAt(buf, b) + ENTRY_SIZE <= SlotAt(buf, a)
  {
  }

  lemma ReadBack(mem: Memory, addr: int, data: seq<byte>)
    ensures Read(Write(mem, addr, data), addr, |data|) == data
  {
  }

  lemma ReadElsewhere(mem: Memory, addr: int, data: seq<byte>, at: int, n: nat)
    requires at + n <= addr || addr + |data| <= at
    ensures Read(Write(mem, addr, data), at, n) == Read(mem, at, n)
  {
  }

  /** Writing to one slot leaves the content of another alone. */
  lemma OtherSlotKept(buf: int, mem: Memory, id: nat, packet: seq<byte>, c: Completion, content: seq<byte>)
    requires c.id != id && |packet| <= ENTRY_SIZE && Holds(buf, mem, c, content)
    ensures Holds(buf, Write(mem, SlotAt(buf, id), packet), c, content)
  {
    SlotsApart(buf, id, c.id);
    ReadElsewhere(mem, SlotAt(buf, id), packet, SlotAt(buf, c.id), c.len);
  }

  /** An id that is posted is not pending. */
  lemma PostedNotPending(posted: seq<Desc>, pending: seq<Completion>, filled: nat, i: nat, k: nat)
    requires Conserved(posted, pending, filled) && i < |posted| && k < |pending|
    ensures posted[i].id != pending[k].id
  {
    PostedWithout(posted, i);
    assert IdsOf(pending, IdOfCompletion)[k] in CompletedIds(pending);
    UptoCounts(filled, posted[i].id);
    var id := posted[i].id;
    assert Upto(filled)[id] == PostedIds(posted)[id] + CompletedIds(pending)[id];
  }

  // ------------------------------------------------------------------
  // Every step keeps the invariant

  lemma ConservedAfterFill(posted: seq<Desc>, pending: seq<Completion>, filled: nat, d: Desc)
    requires Conserved(posted, pending, filled) && d.id == filled
    ensures Conserved(posted + [d], pending, filled + 1)
  {
    PostedWith(posted, d);
    UptoNext(filled);
    ChangeSides(PostedIds(posted), multiset{filled}, CompletedIds(pending));
  }

  lemma ConservedAfterArrival(posted: seq<Desc>, pending: seq<Completion>, filled: nat, i: nat, c: Completion)
    requires Conserved(posted, pending, filled) && i < |posted| && c.id == posted[i].id
    ensures Conserved(posted[..i] + posted[i + 1..], pending + [c], filled)
  {
    PostedWithout(posted, i);
    CompletedWith(pending, c);
    ChangeSides(PostedIds(posted[..i] + posted[i + 1..]), multiset{c.id}, CompletedIds(pending));
  }

  lemma ConservedAfterRepost(posted: seq<Desc>, c: Completion, rest: seq<Completion>, filled: nat, d: Desc)
    requires Conserved(posted, [c] + rest, filled) && d.id == c.id
    ensures Conserved(posted + [d], rest, filled)
  {
    PostedWith(posted, d);
    CompletedWith(rest, c);
    ChangeSides(PostedIds(posted), multiset{c.id}, CompletedIds(rest));
  }

  lemma FillKeeps(s: State, s': State)
    requires Inv(s) && Fill(s, s')
    ensures Inv(s')
  {
    ConservedAfterFill(s.posted, Pending(s.held, s.cq), s.filled, Desc(s.filled, s.buf + ENTRY_SIZE * s.filled));
  }

  lemma {:induction false} HoldingKept(buf: int, mem: Memory, id: nat, packet: seq<byte>,
                                        pending: seq<Completion>, packets: seq<seq<byte>>)
    requires Holding(buf, mem, pending, packets) && |packet| <= ENTRY_SIZE
    requires forall k :: 0 <= k < |pending| ==> pending[k].id != id
    ensures Holding(buf, Write(mem, SlotAt(buf, id), packet), pending, packets)
  {
    if pending != [] {
      OtherSlotKept(buf, mem, id, packet, pending[0], packets[0]);
      HoldingKept(buf, mem, id, packet, pending[1..], packets[1..]);
    }
  }

  lemma {:induction false} HoldingMore(buf: int, mem: Memory, pending: seq<Completion>, packets: seq<seq<byte>>,
                                        c: Completion, packet: seq<byte>)
    requires Holding(buf, mem, pending, packets) && Holds(buf, mem, c, packet)
    ensures Holding(buf, mem, pending + [c], packets + [packet])
  {
    if pending == [] {
      assert (pending + [c])[1..] == [] && (packets + [packet])[1..] == [];
    } else {
      HoldingMore(buf, mem, pending[1..], packets[1..], c, packet);
      assert (pending + [c])[1..] == pending[1..] + [c] && (packets + [packet])[1..] == packets[1..] + [packet];
    }
  }

  lemma {:induction false} HoldingSize(buf: int, mem: Memory, pending: seq<Completion>, packets: seq<seq<byte>>)
    requires Holding(buf, mem, pending, packets)
    ensures |pending| == |packets|
  {
    if pending != [] {
      HoldingSize(buf, mem, pending[1..], packets[1..]);
    }
  }

  lemma MatchesAfterArrival(buf: int, mem: Memory, posted: seq<Desc>, pending: seq<Completion>, filled: nat,
                            arrived: seq<seq<byte>>, handled: seq<seq<byte>>, i: nat, packet: seq<byte>)
    requires Conserved(posted, pending, filled) && i < |posted| && posted[i].addr == SlotAt(buf, posted[i].id)
    requires Matches(buf, mem, pending, arrived, handled) && |packet| <= ENTRY_SIZE
    ensures Matches(buf, Write(mem, posted[i].addr, packet), pending + [Completion(posted[i].id, |packet|)],
                    arrived + [packet], handled)
  {
    var id, h := posted[i].id, |handled|;
    forall k | 0 <= k < |pending|
      ensures pending[k].id != id
    {
      PostedNotPending(posted, pending, filled, i, k);
    }
    HoldingKept(buf, mem, id, packet, pending, arrived[h..]);
    ReadBack(mem, posted[i].addr, packet);
    HoldingMore(buf, Write(mem, posted[i].addr, packet), pending, arrived[h..], Completion(id, |packet|), packet);
    assert (arrived + [packet])[h..] == arrived[h..] + [packet];
  }

  lemma ArriveKeeps(s: State, s': State, i: nat, packet: seq<byte>)
    requires Inv(s) && Arrive(s, s', i, packet)
    ensures Inv(s')
  {
    var c := Completion(s.posted[i].id, |packet|);
    var pending := Pending(s.held, s.cq);
    assert Pending(s'.held, s'.cq) == pending + [c];
    ConservedAfterArrival(s.posted, pending, s.filled, i, c);
    assert Addressed(s.buf, s'.posted);
    MatchesAfterArrival(s.buf, s.mem, s.posted, pending, s.filled, s.arrived, s.handled, i, packet);
  }

  lemma PollKeeps(s: State, s': State)
    requires Inv(s) && Poll(s, s')
    ensures Inv(s')
  {
    assert Pending(s'.held, s'.cq) == Pending(s.held, s.cq);
  }

  lemma RepostKeeps(s: State, s': State)
    requires Inv(s) && Repost(s, s')
    ensures Inv(s')
  {
    var c := s.held.value;
    var d := Desc(c.id, s.buf + c.id * ENTRY_SIZE);
    assert s'.posted == s.posted + [d] && s'.filled == s.filled && Pending(s'.held, s'.cq) == s.cq;
    assert Pending(s.held, s.cq) == [c] + s.cq;
    ConservedAfterRepost(s.posted, c, s.cq, s.filled, d);
    MatchesAfterRepost(s.buf, s.mem, c, s.cq, s.arrived, s.handled);
  }

  lemma MatchesAfterRepost(buf: int, mem: Memory, c: Completion, rest: seq<Completion>,
                           arrived: seq<seq<byte>>, handled: seq<seq<byte>>)
    requires Matches(buf, mem, [c] + rest, arrived, handled)
    ensures Matches(buf, mem, rest, arrived, handled + [Read(mem, SlotAt(buf, c.id), c.len)])
  {
    var h := |handled|;
    assert ([c] + rest)[1..] == rest;
    assert arrived[h..][1..] == arrived[h + 1..];
    assert handled + [arrived[h]] == arrived[..h + 1];
  }

  lemma NextKeeps(s: State, s': State)
    requires Inv(s) && Next(s, s')
    ensures Inv(s')
  {
    if Fill(s, s') {
      FillKeeps(s, s');
    } else if Poll(s, s') {
      PollKeeps(s, s');
    } else if Repost(s, s') {
      RepostKeeps(s, s');
    } else {
      var i: nat, packet: seq<byte> :| Arrive(s, s', i, packet);
      ArriveKeeps(s, s', i, packet);
    }
  }

  lemma {:induction false} InvAlways(run: seq<State>, k: nat)
    requires IsRun(run) && k < |run|
    ensures Inv(run[k])
  {
    if k > 0 {
      InvAlways(run, k - 1);
      assert Next(run[k - 1], run[k - 1 + 1]);
      NextKeeps(run[k - 1], run[k]);
    }
  }

  // ------------------------------------------------------------------
  // What that means in every reachable state

  lemma PendingParts(held: Option<Completion>, cq: seq<Completion>)
    ensures CompletedIds(Pending(held, cq)) == CompletedIds(cq) + HeldIds(held)
  {
    if held.Some? {
      CompletedWith(cq, held.value);
    }
  }

  /** Each id is posted, completed or in software's hands: exactly one of these, exactly once. */
  lemma RingConservation(run: seq<State>, k: nat, id: nat)
    requires IsRun(run) && k < |run| && id < run[k].filled
    ensures PostedIds(run[k].posted)[id] + CompletedIds(run[k].cq)[id] + HeldIds(run[k].held)[id] == 1
  {
    InvAlways(run, k);
    var s := run[k];
    UptoCounts(s.filled, id);
    PendingParts(s.held, s.cq);
    assert Upto(s.filled)[id] == PostedIds(s.posted)[id] + CompletedIds(s.cq)[id] + HeldIds(s.held)[id];
  }

  /** No queue can overflow, and whoever posts a descriptor finds room for it. */
  lemma QueuesNeverOverflow(run: seq<State>, k: nat)
    requires IsRun(run) && k < |run|
    ensures |run[k].posted| + |run[k].cq| + (if run[k].held.Some? then 1 else 0) == run[k].filled <= RQ_NUM_DESC
    ensures run[k].held.Some? || run[k].filled < RQ_NUM_DESC ==> |run[k].posted| < RQ_NUM_DESC
  {
    InvAlways(run, k);
    var s := run[k];
    var pending := Pending(s.held, s.cq);
    UptoCounts(s.filled, 0);
    assert |PostedIds(s.posted) + CompletedIds(pending)| == s.filled;
  }

  /** An id in circulation has its slot inside the buffer. */
  lemma SlotInside(s: State, id: nat)
    requires Inv(s) && (id in PostedIds(s.posted) || id in CompletedIds(Pending(s.held, s.cq)))
    ensures s.buf <= SlotAt(s.buf, id) && SlotAt(s.buf, id) + ENTRY_SIZE <= s.buf + ENTRY_SIZE * RQ_NUM_DESC
  {
    UptoCounts(s.filled, id);
    assert id in Upto(s.filled);
  }

  /** While software works on a slot, no posted descriptor leads the hardware into it. */
  lemma HeldSlotIsSoftwares(run: seq<State>, k: nat, i: nat)
    requires IsRun(run) && k < |run| && run[k].held.Some? && i < |run[k].posted|
    ensures var s := run[k]; var a, b := s.posted[i].addr, SlotAt(s.buf, s.held.value.id);
      && (a + ENTRY_SIZE <= b || b + ENTRY_SIZE <= a)
      && s.buf <= a && a + ENTRY_SIZE <= s.buf + ENTRY_SIZE * RQ_NUM_DESC
      && s.buf <= b && b + ENTRY_SIZE <= s.buf + ENTRY_SIZE * RQ_NUM_DESC
  {
    InvAlways(run, k);
    var s := run[k];
    var pending := Pending(s.held, s.cq);
    PostedWithout(s.posted, i);
    assert IdsOf(pending, IdOfCompletion)[0] in CompletedIds(pending);
    PostedNotPending(s.posted, pending, s.filled, i, 0);
    SlotInside(s, s.posted[i].id);
    SlotInside(s, s.held.value.id);
    SlotsApart(s.buf, s.posted[i].id, s.held.value.id);
  }

  /** Software handles exactly the packets that arrived, unaltered and in the order of their completion. */
  lemma HandledAreArrived(run: seq<State>, k: nat)
    requires IsRun(run) && k < |run|
    ensures run[k].handled <= run[k].arrived
    ensures |run[k].arrived| - |run[k].handled| == |run[k].cq| + if run[k].held.Some? then 1 else 0
  {
    InvAlways(run, k);
    var s := run[k];
    HoldingSize(s.buf, s.mem, Pending(s.held, s.cq), s.arrived[|s.handled|..]);
  }

  // ------------------------------------------------------------------
  // The program

  /** A packet from the wire; it is dropped when no descriptor has the chosen place in the queue. */
  datatype Arrival = Arrival(place: nat, packet: seq<byte>)

  /** What arrives before a poll, and while software works on the completion it finds. */
  datatype Turn = Turn(before: seq<Arrival>, during: seq<Arrival>)

  /** The ring after some arrivals. */
  function Received(s: State, arrivals: seq<Arrival>): State {
    if arrivals == [] then s
    else ReceivedOne(Received(s, arrivals[..|arrivals| - 1]), arrivals[|arrivals| - 1])
  }

  function ReceivedOne(s: State, a: Arrival): State {
    if a.place < |s.posted| then Written(s, a.place, a.packet) else s
  }

  lemma ReceivedNext(s: State, arrivals: seq<Arrival>, n: nat)
    requires n < |arrivals|
    ensures Received(s, arrivals[..n + 1]) == ReceivedOne(Received(s, arrivals[..n]), arrivals[n])
  {
    assert arrivals[..n + 1][..n] == arrivals[..n];
  }

  /** The ring after some turns of the initial loop, with what arrives during each of them. */
  function AfterFills(s: State, fills: seq<seq<Arrival>>): State {
    if fills == [] then s
    else Received(WithOneMore(AfterFills(s, fills[..|fills| - 1])), fills[|fills| - 1])
  }

  lemma FillsNext(s: State, fills: seq<seq<Arrival>>, n: nat)
    requires n < |fills|
    ensures AfterFills(s, fills[..n + 1]) == Received(WithOneMore(AfterFills(s, fills[..n])), fills[n])
  {
    assert fills[..n + 1][..n] == fills[..n];
  }

  /** The ring after one pass of the polling loop. */
  function AfterTurn(s: State, turn: Turn): State {
    var t := Received(s, turn.before);
    if t.cq == [] then t
    else
      var u := Received(Taken(t), turn.during);
      if u.held.Some? then Returned(u) else u
  }

  function AfterTurns(s: State, turns: seq<Turn>): State {
    if turns == [] then s else AfterTurn(AfterTurns(s, turns[..|turns| - 1]), turns[|turns| - 1])
  }

  predicate Receivable(arrivals: seq<Arrival>) {
    forall k :: 0 <= k < |arrivals| ==> |arrivals[k].packet| <= ENTRY_SIZE
  }

  ghost predicate AllReceivable(fills: seq<seq<Arrival>>) {
    forall k :: 0 <= k < |fills| ==> Receivable(fills[k])
  }

  ghost predicate TurnsReceivable(turns: seq<Turn>) {
    forall k :: 0 <= k < |turns| ==> Receivable(turns[k].before) && Receivable(turns[k].during)
  }

  // ------------------------------------------------------------------
  // What the program does is a run of the step relation

  /** A run that has come to this state. */
  ghost predicate RunTo(run: seq<State>, s: State) {
    IsRun(run) && run[|run| - 1] == s
  }

  /** The run with one more step. */
  lemma Extended(run: seq<State>, s: State, s': State) returns (run': seq<State>)
    requires RunTo(run, s) && Next(s, s')
    ensures run' == run + [s'] && RunTo(run', s')
  {
    run' := run + [s'];
    forall k | 0 <= k < |run'| - 1
      ensures Next(run'[k], run'[k + 1])
    {
      if k < |run| - 1 {
        assert Next(run[k], run[k + 1]);
      }
    }
  }

  lemma {:induction false} ReceivedIsRun(run: seq<State>, s: State, arrivals: seq<Arrival>) returns (run': seq<State>)
    requires RunTo(run, s) && Receivable(arrivals)
    ensures run <= run' && RunTo(run', Received(s, arrivals))
    ensures Received(s, arrivals).filled == s.filled && Received(s, arrivals).held == s.held
  {
    if arrivals == [] {
      run' := run;
    } else {
      var n := |arrivals| - 1;
      var a, t := arrivals[n], Received(s, arrivals[..n]);
      run' := ReceivedIsRun(run, s, arrivals[..n]);
      if a.place < |t.posted| {
        assert Arrive(t, Written(t, a.place, a.packet), a.place, a.packet);
        run' := Extended(run', t, Written(t, a.place, a.packet));
      }
    }
  }

  lemma {:induction false} FillsAreRun(run: seq<State>, s: State, fills: seq<seq<Arrival>>) returns (run': seq<State>)
    requires RunTo(run, s) && AllReceivable(fills) && s.filled + |fills| <= RQ_NUM_DESC && s.held.None?
    ensures run <= run' && RunTo(run', AfterFills(s, fills))
    ensures AfterFills(s, fills).filled == s.filled + |fills| && AfterFills(s, fills).held.None?
  {
    if fills == [] {
      run' := run;
    } else {
      var n := |fills| - 1;
      var t := AfterFills(s, fills[..n]);
      run' := FillsAreRun(run, s, fills[..n]);
      run' := Extended(run', t, WithOneMore(t));
      run' := ReceivedIsRun(run', WithOneMore(t), fills[n]);
    }
  }

  lemma TurnIsRun(run: seq<State>, s: State, turn: Turn) returns (run': seq<State>)
    requires RunTo(run, s) && Receivable(turn.before) && Receivable(turn.during)
    requires s.filled == RQ_NUM_DESC && s.held.None?
    ensures run <= run' && RunTo(run', AfterTurn(s, turn))
    ensures AfterTurn(s, turn).filled == RQ_NUM_DESC && AfterTurn(s, turn).held.None?
  {
    var t := Received(s, turn.before);
    run' := ReceivedIsRun(run, s, turn.before);
    if t.cq != [] {
      run' := Extended(run', t, Taken(t));
      run' := ReceivedIsRun(run', Taken(t), turn.during);
      var u := Received(Taken(t), turn.during);
      run' := Extended(run', u, Returned(u));
    }
  }

  lemma {:induction false} TurnsAreRun(run: seq<State>, s: State, turns: seq<Turn>) returns (run': seq<State>)
    requires RunTo(run, s) && TurnsReceivable(turns)
    requires s.filled == RQ_NUM_DESC && s.held.None?
    ensures run <= run' && RunTo(run', AfterTurns(s, turns))
    ensures AfterTurns(s, turns).filled == RQ_NUM_DESC && AfterTurns(s, turns).held.None?
  {
    if turns == [] {
      run' := run;
    } else {
      var n := |turns| - 1;
      run' := TurnsAreRun(run, s, turns[..n]);
      run' := TurnIsRun(run', AfterTurns(s, turns[..n]), turns[n]);
    }
  }

  /** The state that filling the ring and serving it ends in is the last one of a run. */
  lemma ProgramIsRun(buf: int, mem: Memory, fills: seq<seq<Arrival>>, turns: seq<Turn>) returns (run: seq<State>)
    requires |fills| == RQ_NUM_DESC && AllReceivable(fills) && TurnsReceivable(turns)
    ensures RunTo(run, AfterTurns(AfterFills(Initial(buf, mem), fills), turns))
  {
    run := [Initial(buf, mem)];
    run := FillsAreRun(run, Initial(buf, mem), fills);
    run := TurnsAreRun(run, AfterFills(Initial(buf, mem), fills), turns);
  }

  class Ring {
    const buf: int
    var mem: Memory
    var filled: nat
    var posted: seq<Desc>
    var cq: seq<Completion>
    var held: Option<Completion>
    var arrived: seq<seq<byte>>
    var handled: seq<seq<byte>>
    /** The address in the one `sg_entry`, and the id in the one `wr`, that every post reuses. */
    var sgAddr: int
    var wrId: nat

    constructor (buf: int, mem: Memory)
      ensures Abs() == Initial(buf, mem)
    {
      this.buf, this.mem := buf, mem;
      filled, posted, cq, held, arrived, handled, sgAddr, wrId := 0, [], [], None, [], [], 0, 0;
    }

    ghost function Abs(): State
      reads this
    {
      State(buf, mem, filled, posted, cq, held, arrived, handled)
    }

    /** `ibv_post_recv(qp, &wr, &bad_wr)`. */
    method PostRecv()
      modifies this`posted
      ensures posted == old(posted) + [Desc(wrId, sgAddr)]
    {
      posted := posted + [Desc(wrId, sgAddr)];
    }

    /** The hardware fills the slot of one posted descriptor. */
    method WritePacket(place: nat, packet: seq<byte>)
      requires Inv(Abs()) && place < |posted| && |packet| <= ENTRY_SIZE
      modifies this`mem, this`posted, this`cq, this`arrived
      ensures Inv(Abs()) && Abs() == Written(old(Abs()), place, packet)
    {
      ghost var s := Abs();
      var d := posted[place];
      mem := Write(mem, d.addr, packet);
      posted := posted[..place] + posted[place + 1..];
      cq := cq + [Completion(d.id, |packet|)];
      arrived := arrived + [packet];
      ArriveKeeps(s, Abs(), place, packet);
    }

    /** The hardware at work. */
    method Receive(arrivals: seq<Arrival>)
      requires Inv(Abs()) && Receivable(arrivals)
      modifies this`mem, this`posted, this`cq, this`arrived
      ensures Inv(Abs()) && Abs() == Received(old(Abs()), arrivals)
    {
      for k := 0 to |arrivals|
        invariant Inv(Abs()) && Abs() == Received(old(Abs()), arrivals[..k])
      {
        ReceivedNext(old(Abs()), arrivals, k);
        ReceiveOne(arrivals[k]);
      }
      assert arrivals[..|arrivals|] == arrivals;
    }

    method ReceiveOne(a: Arrival)
      requires Inv(Abs()) && |a.packet| <= ENTRY_SIZE
      modifies this`mem, this`posted, this`cq, this`arrived
      ensures Inv(Abs()) && Abs() == ReceivedOne(old(Abs()), a)
    {
      if a.place < |posted| {
        WritePacket(a.place, a.packet);
      }
    }

    /** The initial loop; packets may arrive as soon as a descriptor is posted, others in each turn. */
    method FillRing(fills: seq<seq<Arrival>>)
      requires Inv(Abs()) && filled == 0 && |fills| == RQ_NUM_DESC && AllReceivable(fills)
      modifies this
      ensures Inv(Abs()) && filled == RQ_NUM_DESC && held == None && handled == old(handled)
      ensures Abs() == AfterFills(old(Abs()), fills)
    {
      for n := 0 to RQ_NUM_DESC
        invariant Inv(Abs()) && filled == n && held == None && handled == old(handled)
        invariant Abs() == AfterFills(old(Abs()), fills[..n])
      {
        FillTurn(n, fills, old(Abs()));
      }
      assert fills[..|fills|] == fills;
    }

    /** Turn n of the initial loop. */
    method FillTurn(n: nat, fills: seq<seq<Arrival>>, ghost start: State)
      requires Inv(Abs()) && filled == n < RQ_NUM_DESC && held == None
      requires n < |fills| && AllReceivable(fills) && Abs() == AfterFills(start, fills[..n])
      modifies this
      ensures Inv(Abs()) && filled == n + 1 && held == None && handled == old(handled)
      ensures Abs() == AfterFills(start, fills[..n + 1])
    {
      FillsNext(start, fills, n);
      PostSlot(n);
      Receive(fills[n]);
    }

    /** The post of turn n. */
    method PostSlot(n: nat)
      requires Inv(Abs()) && filled == n < RQ_NUM_DESC
      modifies this`sgAddr, this`wrId, this`posted, this`filled
      ensures Inv(Abs()) && Fill(old(Abs()), Abs())
    {
      ghost var s := Abs();
      sgAddr := buf + ENTRY_SIZE * n;
      wrId := n;
      PostRecv();
      filled := filled + 1;
      FillKeeps(s, Abs());
    }

    /** `ibv_poll_cq(cq, 1, &wc)`. */
    method PollCq() returns (completed: bool, wc: Completion)
      requires Inv(Abs()) && filled == RQ_NUM_DESC && held == None
      modifies this`cq, this`held
      ensures Inv(Abs()) && completed == (old(cq) != [])
      ensures if completed then Poll(old(Abs()), Abs()) && held == Some(wc) else Abs() == old(Abs())
    {
      completed, wc := cq != [], Completion(0, 0);
      if completed {
        ghost var s := Abs();
        wc := cq[0];
        cq, held := cq[1..], Some(wc);
        PollKeeps(s, Abs());
      }
    }

    /** Software looks at the packet and posts its descriptor back. */
    method HandleAndRepost(wc: Completion)
      requires Inv(Abs()) && held == Some(wc)
      modifies this
      ensures Inv(Abs()) && Repost(old(Abs()), Abs())
    {
      ghost var s := Abs();
      sgAddr := buf + wc.id * ENTRY_SIZE;
      wrId := wc.id;
      handled := handled + [Read(mem, sgAddr, wc.len)];
      held := None;
      PostRecv();
      RepostKeeps(s, Abs());
    }

    /** Packets arrive while software handles one. */
    method HandleWhile(during: seq<Arrival>, wc: Completion)
      requires Inv(Abs()) && held == Some(wc) && Receivable(during)
      modifies this
      ensures Inv(Abs()) && held == None && filled == old(filled)
      ensures old(handled) <= handled && |handled| == |old(handled)| + 1
      ensures Received(old(Abs()), during).held.Some? && Abs() == Returned(Received(old(Abs()), during))
    {
      Receive(during);
      HandleAndRepost(wc);
    }

    /** One pass of the polling loop. */
    method OneTurn(turn: Turn) returns (completed: bool)
      requires Inv(Abs()) && filled == RQ_NUM_DESC && held == None
      requires Receivable(turn.before) && Receivable(turn.during)
      modifies this
      ensures Inv(Abs()) && filled == RQ_NUM_DESC && held == None
      ensures old(handled) <= handled && |handled| == |old(handled)| + if completed then 1 else 0
      ensures Abs() == AfterTurn(old(Abs()), turn)
      ensures !completed ==> handled == arrived
    {
      Receive(turn.before);
      var wc;
      completed, wc := PollCq();
      if completed {
        HandleWhile(turn.during, wc);
      } else {
        HoldingSize(buf, mem, Pending(held, cq), arrived[|handled|..]);
      }
    }

    /**
     The polling loop over some turns.  Whatever arrives when, software has handled a prefix
     of the packets that arrived, one for each poll that found a completion.
     */
    method Serve(turns: seq<Turn>) returns (polled: nat)
      requires Inv(Abs()) && filled == RQ_NUM_DESC && held == None
      requires TurnsReceivable(turns)
      modifies this
      ensures Inv(Abs()) && held == None
      ensures old(handled) <= handled <= arrived && |handled| == |old(handled)| + polled
      ensures Abs() == AfterTurns(old(Abs()), turns)
    {
      polled := 0;
      for k := 0 to |turns|
        invariant Inv(Abs()) && filled == RQ_NUM_DESC && held == None
        invariant old(handled) <= handled && |handled| == |old(handled)| + polled
        invariant Abs() == AfterTurns(old(Abs()), turns[..k])
      {
        assert turns[..k + 1][..k] == turns[..k];
        var completed := OneTurn(turns[k]);
        if completed {
          polled := polled + 1;
        }
      }
      assert turns[..|turns|] == turns;
    }
  }

  /** The example program: it sets up a ring, fills it and serves it for some turns. */
  method RunProgram(buf: int, mem: Memory, fills: seq<seq<Arrival>>, turns: seq<Turn>) returns (ring: Ring, polled: nat)
    requires |fills| == RQ_NUM_DESC && AllReceivable(fills) && TurnsReceivable(turns)
    ensures fresh(ring) && ring.Abs() == AfterTurns(AfterFills(Initial(buf, mem), fills), turns)
    ensures Inv(ring.Abs()) && ring.handled <= ring.arrived && |ring.handled| == polled
    ensures exists run :: RunTo(run, ring.Abs())
  {
    ring := new Ring(buf, mem);
    InitialIsSound(buf, mem);
    ring.FillRing(fills);
    polled := ring.Serve(turns);
    ghost var run := ProgramIsRun(buf, mem, fills, turns);
  }

  lemma InitialIsSound(buf: int, mem: Memory)
    ensures Inv(Initial(buf, mem))
  {
    InvAlways([Initial(buf, mem)], 0);
  }
}
