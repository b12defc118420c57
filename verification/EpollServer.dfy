/**
 The epoll loop of the TCP sink: it accepts and closes connections while the kernel hands
 out file descriptor numbers again as soon as they are free, even within one batch of events.
 */
module EpollServer {

  const MAX_EVENTS: nat := 10

  /**
   The descriptors of the process: which connection (numbered as accepted) each open connection
   descriptor stands for, what is registered with epoll, and which connections were closed.
   */
  datatype State = State(open: map<int, nat>, registered: set<int>, accepted: nat, closed: seq<nat>)

  /** What holds between any two events. */
  predicate Inv(s: State, listen: int) {
    && listen !in s.open
    && s.registered == {listen} + s.open.Keys
    && Numbered(s.open, s.accepted, s.closed)
    && s.accepted == |s.closed| + |s.open|
  }

  /** Connections keep their numbers apart, and none is closed twice or while it is open. */
  predicate Numbered(open: map<int, nat>, accepted: nat, closed: seq<nat>) {
    && (forall fd :: fd in open ==> open[fd] < accepted && open[fd] !in closed)
    && (forall fd, fd' :: fd in open && fd' in open && open[fd] == open[fd'] ==> fd == fd')
    && (forall k :: 0 <= k < |closed| ==> closed[k] < accepted)
    && (forall j, k :: 0 <= j < k < |closed| ==> closed[j] != closed[k])
  }

  lemma NumberedAccepted(open: map<int, nat>, accepted: nat, closed: seq<nat>, fd: int)
    requires Numbered(open, accepted, closed) && fd !in open
    ensures Numbered(open[fd := accepted], accepted + 1, closed)
  {
    var open' := open[fd := accepted];
    forall a, b | a in open' && b in open' && open'[a] == open'[b]
      ensures a == b
    {
      assert a != fd ==> a in open && open[a] < accepted;
      assert b != fd ==> b in open && open[b] < accepted;
    }
  }

  lemma NumberedClosed(open: map<int, nat>, accepted: nat, closed: seq<nat>, fd: int)
    requires Numbered(open, accepted, closed) && fd in open
    ensures Numbered(open - {fd}, accepted, closed + [open[fd]])
  {
  }

  /** accept4 returned a free number, and it was added to the epoll set. */
  function Accepted(s: State, fd: int): State {
    State(s.open[fd := s.accepted], s.registered + {fd}, s.accepted + 1, s.closed)
  }

  /** close takes the descriptor out of the epoll set as well. */
  function Closed(s: State, fd: int): State
    requires fd in s.open
  {
    State(s.open - {fd}, s.registered - {fd}, s.accepted, s.closed + [s.open[fd]])
  }

  lemma OneMoreKey(open: map<int, nat>, fd: int, n: nat)
    requires fd !in open
    ensures open[fd := n].Keys == open.Keys + {fd} && |open[fd := n]| == |open| + 1
  {
    assert open[fd := n].Keys == open.Keys + {fd};
  }

  lemma OneKeyLess(open: map<int, nat>, fd: int)
    requires fd in open
    ensures (open - {fd}).Keys == open.Keys - {fd} && |open - {fd}| == |open| - 1
  {
    assert |(open - {fd}).Keys| == |open.Keys - {fd}|;
  }

  lemma AcceptedKeeps(s: State, listen: int, fd: int)
    requires Inv(s, listen) && fd != listen && fd !in s.open
    ensures Inv(Accepted(s, fd), listen)
  {
    OneMoreKey(s.open, fd, s.accepted);
    NumberedAccepted(s.open, s.accepted, s.closed, fd);
  }

  lemma ClosedKeeps(s: State, listen: int, fd: int)
    requires Inv(s, listen) && fd in s.open
    ensures Inv(Closed(s, fd), listen)
  {
    OneKeyLess(s.open, fd);
    NumberedClosed(s.open, s.accepted, s.closed, fd);
  }

  // ------------------------------------------------------------------
  // A batch of events

  /** epoll_wait reports registered descriptors, each at most once. */
  predicate Ready(events: seq<int>, registered: set<int>) {
    && |events| <= MAX_EVENTS
    && (forall k :: 0 <= k < |events| ==> events[k] in registered)
    && (forall j, k :: 0 <= j < k < |events| ==> events[j] != events[k])
  }

  /**
   The events from n on still mean what they meant when the batch was reported: each
   descriptor is open and stands for the same connection as then.
   */
  predicate StillFresh(s: State, before: State, listen: int, events: seq<int>, n: nat) {
    forall k :: n <= k < |events| && events[k] != listen ==>
      events[k] in s.open && events[k] in before.open && s.open[events[k]] == before.open[events[k]]
  }

  /** The connections that a batch reported as ready, in order. */
  function ReadyConnections(open: map<int, nat>, events: seq<int>): seq<nat> {
    if events == [] then []
    else
      var rest, fd := ReadyConnections(open, events[..|events| - 1]), events[|events| - 1];
      if fd in open then rest + [open[fd]] else rest
  }

  lemma ReadyNext(open: map<int, nat>, events: seq<int>, n: nat, earlier: seq<nat>)
    requires n < |events|
    ensures earlier + ReadyConnections(open, events[..n + 1]) ==
      if events[n] in open then earlier + ReadyConnections(open, events[..n]) + [open[events[n]]]
      else earlier + ReadyConnections(open, events[..n])
  {
    assert events[..n + 1][..n] == events[..n];
  }

  lemma ReadyAppended(open: map<int, nat>, events: seq<int>, fd: int)
    ensures ReadyConnections(open, events + [fd]) ==
      ReadyConnections(open, events) + if fd in open then [open[fd]] else []
  {
    assert (events + [fd])[..|events|] == events;
  }

  /** One ready connection is itself... */
  lemma ReadyAlone(open: map<int, nat>, fd: int)
    ensures ReadyConnections(open, [fd]) == if fd in open then [open[fd]] else []
  {
    assert [fd][..0] == [];
  }

  /** ...and ready connections follow the order of their events. */
  lemma {:induction false} ReadyAddsUp(open: map<int, nat>, events: seq<int>, more: seq<int>)
    ensures ReadyConnections(open, events + more) == ReadyConnections(open, events) + ReadyConnections(open, more)
  {
    if more == [] {
      assert events + more == events;
    } else {
      var n := |more| - 1;
      ReadyAddsUp(open, events, more[..n]);
      assert events + more[..n] + [more[n]] == events + more && more[..n] + [more[n]] == more;
      ReadyAppended(open, events + more[..n], more[n]);
      ReadyAppended(open, more[..n], more[n]);
    }
  }

  function ListenEvents(listen: int, events: seq<int>, n: nat): nat
    requires n <= |events|
  {
    if n == 0 then 0 else ListenEvents(listen, events, n - 1) + if events[n - 1] == listen then 1 else 0
  }

  /** Every event of a batch is a new connection or one that was ready. */
  lemma {:induction false} EachEventOnce(open: map<int, nat>, listen: int, events: seq<int>, n: nat)
    requires listen !in open && n <= |events|
    requires forall k :: 0 <= k < |events| ==> events[k] == listen || events[k] in open
    ensures ListenEvents(listen, events, n) + |ReadyConnections(open, events[..n])| == n
  {
    if n > 0 {
      EachEventOnce(open, listen, events, n - 1);
      assert events[..n][..n - 1] == events[..n - 1];
    }
  }

  /** A batch brings at most one new connection. */
  lemma {:induction false} AtMostOneListen(listen: int, events: seq<int>, registered: set<int>, n: nat)
    requires Ready(events, registered) && n <= |events|
    ensures ListenEvents(listen, events, n) == if listen in events[..n] then 1 else 0
  {
    if n > 0 {
      AtMostOneListen(listen, events, registered, n - 1);
      assert events[..n] == events[..n - 1] + [events[n - 1]];
    }
  }

  /** A new connection leaves the unprocessed events alone, whatever number it gets. */
  lemma AcceptedKeepsFresh(s: State, before: State, listen: int, events: seq<int>, n: nat, fd: int)
    requires StillFresh(s, before, listen, events, n) && n < |events| && fd !in s.open
    ensures StillFresh(Accepted(s, fd), before, listen, events, n + 1)
  {
  }

  /** Closing one ready descriptor leaves the later events alone. */
  lemma ClosedKeepsFresh(s: State, before: State, listen: int, registered: set<int>, events: seq<int>, n: nat)
    requires StillFresh(s, before, listen, events, n) && n < |events| && events[n] != listen
    requires Ready(events, registered)
    ensures events[n] in s.open && StillFresh(Closed(s, events[n]), before, listen, events, n + 1)
  {
  }

  // ------------------------------------------------------------------
  // The program

  /** What the n-th epoll_wait reports, given what is registered. */
  datatype WaitResult = WaitError | Events(fds: seq<int>)

  /**
   The kernel's choices, as arbitrary functions of how often it was asked and of the
   descriptors in use.
   */
  datatype Kernel = Kernel(wait: (nat, set<int>) -> WaitResult, accept: (nat, set<int>) -> int, addFails: nat -> bool)

  /** accept4 returns -1 or a number not in use; epoll_wait reports registered descriptors. */
  ghost predicate Lawful(kernel: Kernel) {
    && (forall n: nat, used: set<int> :: kernel.accept(n, used) == -1 || kernel.accept(n, used) !in used)
    && (forall n: nat, registered: set<int> :: kernel.wait(n, registered).Events? ==>
          Ready(kernel.wait(n, registered).fds, registered))
  }

  class Server {
    const listen: int
    /** Descriptors the process uses for other things, the epoll descriptor among them. */
    const others: set<int>
    const kernel: Kernel
    var open: map<int, nat>
    var registered: set<int>
    var accepted: nat
    var closed: seq<nat>
    /** Calls of accept4 and of epoll_wait so far, and the events these reported. */
    var accepts: nat
    var waits: nat
    var reported: nat

    constructor (listen: int, others: set<int>, kernel: Kernel)
      ensures this.listen == listen && this.others == others && this.kernel == kernel
      ensures Inv(Abs(), listen) && accepted == 0
    {
      this.listen, this.others, this.kernel := listen, others, kernel;
      open, registered, accepted, closed, accepts, waits, reported := map[], {listen}, 0, [], 0, 0, 0;
    }

    function Abs(): State
      reads this
    {
      State(open, registered, accepted, closed)
    }

    /** A new descriptor enters the epoll set. */
    method Register(connfd: int)
      requires Inv(Abs(), listen) && connfd != listen && connfd !in open
      modifies this`open, this`registered, this`accepted
      ensures Inv(Abs(), listen) && Abs() == Accepted(old(Abs()), connfd)
    {
      AcceptedKeeps(Abs(), listen, connfd);
      open := open[connfd := accepted];
      registered := registered + {connfd};
      accepted := accepted + 1;
    }

    /** The listen socket is ready. */
    method HandleListen() returns (exits: bool, connfd: int)
      requires Lawful(kernel) && Inv(Abs(), listen)
      modifies this`open, this`registered, this`accepted, this`accepts
      ensures connfd == kernel.accept(old(accepts), old(open.Keys) + {listen} + others)
      ensures exits <==> connfd == -1 || kernel.addFails(old(accepts))
      ensures exits ==> Abs() == old(Abs())
      ensures !exits ==> Inv(Abs(), listen) && connfd !in old(open) && Abs() == Accepted(old(Abs()), connfd)
    {
      connfd := kernel.accept(accepts, open.Keys + {listen} + others);
      exits := connfd == -1 || kernel.addFails(accepts);
      accepts := accepts + 1;
      if exits {
        return;
      }
      Register(connfd);
    }

    /** A connection is ready. */
    method HandleConnection(connfd: int)
      requires Inv(Abs(), listen) && connfd in open
      modifies this`open, this`registered, this`closed
      ensures Inv(Abs(), listen) && Abs() == Closed(old(Abs()), connfd)
    {
      ghost var s := Abs();
      closed := closed + [open[connfd]];
      open := open - {connfd};
      registered := registered - {connfd};
      assert Abs() == Closed(s, connfd);
      ClosedKeeps(s, listen, connfd);
    }

    /** Event n of a batch: the listen socket or a connection. */
    method HandleEvent(events: seq<int>, n: nat, ghost before: State, ghost reported: set<int>) returns (exits: bool)
      requires Lawful(kernel) && Inv(Abs(), listen)
      requires n < |events| && Ready(events, reported) && listen !in before.open
      requires StillFresh(Abs(), before, listen, events, n)
      modifies this`open, this`registered, this`accepted, this`closed, this`accepts
      ensures Inv(Abs(), listen)
      ensures exits ==> closed == old(closed)
      ensures !exits ==> StillFresh(Abs(), before, listen, events, n + 1)
      ensures !exits && events[n] == listen ==>
        accepted == old(accepted) + 1 && closed == old(closed) && events[n] !in before.open
      ensures !exits && events[n] != listen ==>
        accepted == old(accepted) && events[n] in before.open && closed == old(closed) + [before.open[events[n]]]
    {
      ghost var s := Abs();
      exits := false;
      if events[n] == listen {
        var connfd;
        exits, connfd := HandleListen();
        if !exits {
          AcceptedKeepsFresh(s, before, listen, events, n, connfd);
        }
      } else {
        ClosedKeepsFresh(s, before, listen, reported, events, n);
        HandleConnection(events[n]);
      }
    }

    /**
     The inner loop over one batch.  It closes exactly the connections that were ready when the
     batch was reported, in order, and accepts at most one, however numbers are reused meanwhile.
     */
    method HandleBatch(events: seq<int>) returns (exits: bool)
      requires Lawful(kernel) && Inv(Abs(), listen) && Ready(events, registered)
      modifies this`open, this`registered, this`accepted, this`closed, this`accepts
      ensures Inv(Abs(), listen) && old(closed) <= closed
      ensures !exits ==> closed == old(closed) + ReadyConnections(old(open), events)
      ensures !exits ==> accepted == old(accepted) + ListenEvents(listen, events, |events|)
      ensures !exits ==> accepted + |closed| == old(accepted) + |old(closed)| + |events|
    {
      ghost var before, reported := Abs(), registered;
      exits := false;
      for n := 0 to |events|
        invariant Inv(Abs(), listen) && StillFresh(Abs(), before, listen, events, n)
        invariant closed == old(closed) + ReadyConnections(before.open, events[..n])
        invariant accepted == old(accepted) + ListenEvents(listen, events, n)
      {
        exits := HandleEvent(events, n, before, reported);
        if exits {
          return;
        }
        ReadyNext(before.open, events, n, old(closed));
      }
      assert events[..|events|] == events;
      EachEventOnce(before.open, listen, events, |events|);
    }

    /** `epoll_connections`: count batches, unless a system call fails. */
    method EpollConnections(count: nat) returns (exits: bool)
      requires Lawful(kernel) && Inv(Abs(), listen)
      modifies this
      ensures Inv(Abs(), listen) && old(closed) <= closed
      ensures !exits ==> waits == old(waits) + count
      ensures !exits ==> accepted + |closed| - reported == old(accepted + |closed| - reported)
    {
      for i := 0 to count
        invariant Inv(Abs(), listen) && old(closed) <= closed && waits == old(waits) + i
        invariant accepted + |closed| - reported == old(accepted + |closed| - reported)
      {
        exits := OneWait();
        if exits {
          return;
        }
      }
      exits := false;
    }

    /** One epoll_wait and the batch it reports. */
    method OneWait() returns (exits: bool)
      requires Lawful(kernel) && Inv(Abs(), listen)
      modifies this
      ensures Inv(Abs(), listen) && old(closed) <= closed && waits == old(waits) + 1
      ensures !exits ==> accepted + |closed| - reported == old(accepted + |closed| - reported)
    {
      var result := kernel.wait(waits, registered);
      waits := waits + 1;
      if result.WaitError? {
        return true;
      }
      reported := reported + |result.fds|;
      exits := HandleBatch(result.fds);
    }
  }
}
