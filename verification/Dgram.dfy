/** The datagram demultiplexer of compat/dgram.c: many logical sockets with a queue each
    share one UDP socket.  The kernel's part (new descriptors, arrivals) comes in as
    parameters. */
module Dgram {
  import opened Options

  /** A socket address: the family, zero for none, and the bytes that are compared. */
  datatype Addr = Addr(family: nat, data: nat)

  const NOBODY := Addr(0, 0)

  datatype Datagram = Datagram(src: Addr, body: seq<int>)

  /** struct dgramblk; the parent is -1 in a slot that is not open. */
  datatype Slot = Slot(parent: int, peer: Addr, queue: seq<Datagram>)

  const CLOSED := Slot(-1, NOBODY, [])

  predicate Open(s: seq<Slot>, fd: int) {
    0 <= fd < |s| && s[fd].parent != -1
  }

  predicate Root(s: seq<Slot>, fd: int) {
    0 <= fd < |s| && s[fd].parent == fd
  }

  /** Every open slot belongs to an open root, every other slot is blank. */
  predicate Wired(s: seq<Slot>) {
    forall i :: 0 <= i < |s| ==> s[i] == CLOSED || Root(s, s[i].parent)
  }

  predicate FromPeer(slot: Slot) {
    slot.peer.family != 0 ==> forall d :: d in slot.queue ==> d.src.data == slot.peer.data
  }

  /** Every datagram queued at a slot with a peer came from that peer. */
  predicate Sorted(s: seq<Slot>) {
    forall i :: 0 <= i < |s| ==> FromPeer(s[i])
  }

  // ---------------------------------------------------------------- routing

  predicate Sibling(s: seq<Slot>, fd: int, data: nat, k: int)
    requires 0 <= fd < |s|
  {
    0 <= k < |s| && k != fd && s[k].parent == s[fd].parent && s[k].peer.data == data
  }

  /** The first sibling with that peer, or the length. */
  function FirstSibling(s: seq<Slot>, fd: int, data: nat, k: nat): (r: nat)
    requires 0 <= fd < |s| && k <= |s|
    ensures k <= r <= |s| && (r < |s| ==> Sibling(s, fd, data, r))
    ensures forall j :: k <= j < r ==> !Sibling(s, fd, data, j)
    decreases |s| - k
  {
    if k == |s| || Sibling(s, fd, data, k) then k else FirstSibling(s, fd, data, k + 1)
  }

  /** The queue a datagram received on fd goes to; None when it is thrown away. */
  function Route(s: seq<Slot>, fd: int, src: Addr): Option<nat>
    requires Wired(s) && Open(s, fd)
  {
    if src.data == s[fd].peer.data then Some(fd)
    else
      var k := FirstSibling(s, fd, src.data, 0);
      if k < |s| then Some(k)
      else if s[s[fd].parent].peer.family != 0 then None
      else Some(s[fd].parent)
  }

  /** Slots that share the socket of fd and talk to that address. */
  predicate TalksTo(s: seq<Slot>, fd: int, data: nat, k: int)
    requires 0 <= fd < |s|
  {
    0 <= k < |s| && s[k].parent == s[fd].parent && s[k].peer.data == data
  }

  /** A datagram reaches a slot that talks to its sender if there is one, else the root if
      that talks to nobody, else none; always within the group of fd. */
  lemma RouteIsRight(s: seq<Slot>, fd: int, src: Addr)
    requires Wired(s) && Open(s, fd)
    ensures match Route(s, fd, src)
            case Some(k) =>
              Open(s, k) && s[k].parent == s[fd].parent
              && (TalksTo(s, fd, src.data, k)
                  || (k == s[fd].parent && s[k].peer.family == 0 && forall j :: !TalksTo(s, fd, src.data, j)))
            case None =>
              s[s[fd].parent].peer.family != 0 && forall j :: !TalksTo(s, fd, src.data, j)
  {
    assert Root(s, s[fd].parent);
    if src.data != s[fd].peer.data && FirstSibling(s, fd, src.data, 0) == |s| {
      forall j
        ensures !TalksTo(s, fd, src.data, j)
      {
        if TalksTo(s, fd, src.data, j) {
          assert Sibling(s, fd, src.data, j);
        }
      }
    }
  }

  function Append(slot: Slot, d: Datagram): Slot {
    slot.(queue := slot.queue + [d])
  }

  /** The slots once a descriptor is closed: its children stand on their own. */
  function Orphaned(s: seq<Slot>, fd: int): seq<Slot> {
    seq(|s|, i requires 0 <= i < |s| => if s[i].parent == fd then s[i].(parent := i) else s[i])
  }

  // ---------------------------------------------------------------- a whole run

  /** The slots, and every datagram received, read and thrown away so far. */
  datatype World = World(slots: seq<Slot>, received: multiset<Datagram>, taken: multiset<Datagram>,
                         dropped: multiset<Datagram>)

  datatype Op =
    | Start(sd: int)
    | JoinNew(fd: int, sd: int)
    | JoinHere(fd: int, peer: Addr)
    | Hack(fd: int, peer: Addr)
    | ReadFrom(fd: int)
    | Close(fd: int)
    | Arrive(fd: int, d: Datagram)

  /** What the kernel sees to: new descriptors are unused, and senders are somebody. */
  predicate Possible(s: seq<Slot>, op: Op) {
    match op
    case Start(sd) => 0 <= sd < |s| && s[sd] == CLOSED
    case JoinNew(_, sd) => 0 <= sd < |s| && s[sd] == CLOSED
    case Arrive(_, d) => d.src.family != 0
    case _ => true
  }

  /** The caller gives a new peer only to a root with nothing in its queue. */
  predicate Careful(s: seq<Slot>, op: Op) {
    (op.JoinHere? || op.Hack?) && Root(s, op.fd) ==> s[op.fd].queue == []
  }

  /** One call; a call with a bad descriptor, or with nothing to do, changes nothing. */
  function Step(w: World, op: Op): World
    requires Wired(w.slots)
  {
    var s := w.slots;
    if !Possible(s, op) then w
    else match op
      case Start(sd) => w.(slots := s[sd := s[sd].(parent := sd)])
      case JoinNew(fd, sd) =>
        if !Root(s, fd) || s[fd].queue == [] then w
        else
          var d := s[fd].queue[0];
          w.(slots := s[fd := s[fd].(queue := s[fd].queue[1..])][sd := Slot(fd, d.src, [d])])
      case JoinHere(fd, peer) => if !Root(s, fd) then w else w.(slots := s[fd := s[fd].(peer := peer)])
      case Hack(fd, peer) => if !Root(s, fd) then w else w.(slots := s[fd := s[fd].(peer := peer)])
      case ReadFrom(fd) =>
        if !Open(s, fd) || s[fd].queue == [] then w
        else w.(slots := s[fd := s[fd].(queue := s[fd].queue[1..])], taken := w.taken + multiset{s[fd].queue[0]})
      case Close(fd) =>
        if !Open(s, fd) then w
        else w.(slots := Orphaned(s[fd := CLOSED], fd), dropped := w.dropped + multiset(s[fd].queue))
      case Arrive(fd, d) =>
        if !Open(s, fd) then w
        else match Route(s, fd, d.src)
          case Some(k) => w.(slots := s[k := Append(s[k], d)], received := w.received + multiset{d})
          case None => w.(received := w.received + multiset{d}, dropped := w.dropped + multiset{d})
  }

  function Queued(s: seq<Slot>): multiset<Datagram> {
    if s == [] then multiset{} else Queued(s[..|s| - 1]) + multiset(s[|s| - 1].queue)
  }

  /** Nothing is lost or made up. */
  predicate Conserved(w: World) {
    w.received == Queued(w.slots) + w.taken + w.dropped
  }

  // ---------------------------------------------------------------- steps

  lemma {:induction false} QueuedUpdate(s: seq<Slot>, k: nat, slot: Slot)
    requires k < |s|
    ensures Queued(s[k := slot]) + multiset(s[k].queue) == Queued(s) + multiset(slot.queue)
  {
    var n := |s| - 1;
    if k == n {
      assert s[k := slot][..n] == s[..n];
    } else {
      QueuedUpdate(s[..n], k, slot);
      assert s[k := slot][..n] == s[..n][k := slot];
      Swap(Queued(s[..n][k := slot]), multiset(s[k].queue), Queued(s[..n]), multiset(slot.queue), multiset(s[n].queue));
    }
  }

  lemma Swap(a: multiset<Datagram>, b: multiset<Datagram>, c: multiset<Datagram>, d: multiset<Datagram>,
             e: multiset<Datagram>)
    requires a + b == c + d
    ensures a + e + b == c + e + d
  {
    assert a + e + b == a + b + e && c + e + d == c + d + e;
  }

  lemma {:induction false} QueuedSame(s: seq<Slot>, t: seq<Slot>)
    requires |s| == |t| && forall i :: 0 <= i < |s| ==> s[i].queue == t[i].queue
    ensures Queued(s) == Queued(t)
  {
    if s != [] {
      QueuedSame(s[..|s| - 1], t[..|t| - 1]);
    }
  }

  lemma FirstOut(q: seq<Datagram>)
    requires q != []
    ensures multiset(q) == multiset{q[0]} + multiset(q[1..])
  {
    assert q == [q[0]] + q[1..];
  }

  lemma Moved(all: multiset<Datagram>, less: multiset<Datagram>, d: Datagram, rest: multiset<Datagram>)
    requires less + (multiset{d} + rest) == all + rest
    ensures less + multiset{d} == all
  {
    assert less + (multiset{d} + rest) - rest == less + multiset{d};
    assert all + rest - rest == all;
  }

  /** Taking the first datagram out of a queue. */
  lemma TakeFirst(s: seq<Slot>, fd: nat)
    requires fd < |s| && s[fd].queue != []
    ensures Queued(s[fd := s[fd].(queue := s[fd].queue[1..])]) + multiset{s[fd].queue[0]} == Queued(s)
  {
    hide Queued;
    var t := s[fd := s[fd].(queue := s[fd].queue[1..])];
    FirstOut(s[fd].queue);
    QueuedUpdate(s, fd, t[fd]);
    Moved(Queued(s), Queued(t), s[fd].queue[0], multiset(s[fd].queue[1..]));
  }

  lemma PutLast(s: seq<Slot>, k: nat, d: Datagram)
    requires k < |s|
    ensures Queued(s[k := Append(s[k], d)]) == Queued(s) + multiset{d}
  {
    hide Queued;
    var q := multiset(s[k].queue);
    QueuedUpdate(s, k, Append(s[k], d));
    Moved(Queued(s[k := Append(s[k], d)]), Queued(s), d, q);
  }

  /** Datagrams that go from one account to another. */
  lemma Balance(q: multiset<Datagram>, t: multiset<Datagram>, d: multiset<Datagram>, x: multiset<Datagram>)
    ensures q + x + t + d == q + (t + x) + d && q + x + t + d == q + t + (d + x) && q + t + d + x == q + x + t + d
  {
  }

  lemma DropAll(s: seq<Slot>, fd: nat)
    requires fd < |s|
    ensures Queued(Orphaned(s[fd := CLOSED], fd)) + multiset(s[fd].queue) == Queued(s)
  {
    hide Queued;
    QueuedUpdate(s, fd, CLOSED);
    QueuedSame(s[fd := CLOSED], Orphaned(s[fd := CLOSED], fd));
    assert Queued(s) + multiset(CLOSED.queue) == Queued(s);
  }

  lemma MoveFirst(s: seq<Slot>, fd: nat, sd: nat)
    requires fd < |s| && s[fd].queue != [] && sd < |s| && s[sd] == CLOSED
    ensures var d := s[fd].queue[0];
            Queued(s[fd := s[fd].(queue := s[fd].queue[1..])][sd := Slot(fd, d.src, [d])]) == Queued(s)
  {
    hide Queued;
    var t := s[fd := s[fd].(queue := s[fd].queue[1..])];
    var d := s[fd].queue[0];
    TakeFirst(s, fd);
    QueuedUpdate(t, sd, Slot(fd, d.src, [d]));
    assert multiset([d]) == multiset{d};
  }

  lemma ArriveConserves(w: World, fd: int, d: Datagram)
    requires Wired(w.slots) && Conserved(w)
    ensures Conserved(Step(w, Arrive(fd, d)))
  {
    hide Queued, Wired, Route;
    var s := w.slots;
    if Possible(s, Arrive(fd, d)) && Open(s, fd) {
      RouteIsRight(s, fd, d.src);
      Balance(Queued(s), w.taken, w.dropped, multiset{d});
      if Route(s, fd, d.src).Some? {
        PutLast(s, Route(s, fd, d.src).value, d);
      }
    }
  }

  lemma StepConserves(w: World, op: Op)
    requires Wired(w.slots) && Conserved(w)
    ensures Conserved(Step(w, op))
  {
    hide Queued, Wired, Route, Orphaned;
    var s := w.slots;
    if op.Arrive? {
      ArriveConserves(w, op.fd, op.d);
    } else if op.Start? || op.JoinHere? || op.Hack? {
      QueuedSame(s, Step(w, op).slots);
    } else if op.JoinNew? {
      if Possible(s, op) && Root(s, op.fd) && s[op.fd].queue != [] {
        MoveFirst(s, op.fd, op.sd);
      }
    } else if op.ReadFrom? {
      if Open(s, op.fd) && s[op.fd].queue != [] {
        TakeFirst(s, op.fd);
        Balance(Queued(Step(w, op).slots), w.taken, w.dropped, multiset{s[op.fd].queue[0]});
      }
    } else if Open(s, op.fd) {
      DropAll(s, op.fd);
      Balance(Queued(Step(w, op).slots), w.taken, w.dropped, multiset(s[op.fd].queue));
    }
  }

  lemma StepWired(w: World, op: Op)
    requires Wired(w.slots)
    ensures Wired(Step(w, op).slots) && |Step(w, op).slots| == |w.slots|
  {
    hide Route, Queued;
    var s := w.slots;
    var t := Step(w, op).slots;
    if op.Arrive? && Open(s, op.fd) {
      RouteIsRight(s, op.fd, op.d.src);
    }
    forall i | 0 <= i < |t|
      ensures t[i] == CLOSED || Root(t, t[i].parent)
    {
      assert s[i] == CLOSED || Root(s, s[i].parent);
    }
  }

  /** One call keeps every queue to its peer; giving a root a new peer does so exactly when
      what is queued there is from the new peer. */
  lemma StepSorted(w: World, op: Op)
    requires Wired(w.slots) && Sorted(w.slots)
    ensures Sorted(Step(w, op).slots)
            <==> ((op.JoinHere? || op.Hack?) && Root(w.slots, op.fd)
                  ==> FromPeer(w.slots[op.fd].(peer := op.peer)))
  {
    hide Route, Queued;
    var s := w.slots;
    var t := Step(w, op).slots;
    StepWired(w, op);
    if op.Arrive? && Open(s, op.fd) {
      RouteIsRight(s, op.fd, op.d.src);
    }
    if (op.JoinHere? || op.Hack?) && Root(s, op.fd) {
      assert t[op.fd] == s[op.fd].(peer := op.peer);
    } else {
      forall i | 0 <= i < |t|
        ensures FromPeer(t[i])
      {
        assert FromPeer(s[i]);
        if op.JoinNew? && Possible(s, op) && Root(s, op.fd) && s[op.fd].queue != [] {
          assert FromPeer(s[op.fd]);
        }
      }
    }
  }

  // ---------------------------------------------------------------- runs

  function Run(w: World, ops: seq<Op>): (r: World)
    requires Wired(w.slots)
    ensures Wired(r.slots) && |r.slots| == |w.slots|
  {
    if ops == [] then w
    else
      var v := Run(w, ops[..|ops| - 1]);
      StepWired(v, ops[|ops| - 1]);
      Step(v, ops[|ops| - 1])
  }

  /** Every run keeps the wiring and loses nothing: each datagram received is in exactly one
      queue, was read, or was thrown away. */
  lemma {:induction false} RunKeeps(w: World, ops: seq<Op>)
    requires Wired(w.slots) && Conserved(w)
    ensures Wired(Run(w, ops).slots) && Conserved(Run(w, ops))
  {
    hide Wired, Conserved, Step;
    if ops != [] {
      RunKeeps(w, ops[..|ops| - 1]);
      StepConserves(Run(w, ops[..|ops| - 1]), ops[|ops| - 1]);
    }
  }

  // ---------------------------------------------------------------- order

  function QueueOf(w: World, fd: nat): seq<Datagram>
    requires fd < |w.slots|
  {
    w.slots[fd].queue
  }

  /** What one call takes off the queue of fd: a read, or the birth of a new descriptor. */
  function LeftBy(w: World, op: Op, fd: nat): seq<Datagram>
    requires Wired(w.slots) && fd < |w.slots|
  {
    var s := w.slots;
    if s[fd].queue == [] || !Possible(s, op) then []
    else if (op.ReadFrom? && op.fd == fd && Open(s, fd)) || (op.JoinNew? && op.fd == fd && Root(s, fd))
    then [s[fd].queue[0]] else []
  }

  /** What one call puts on it: an arrival routed there, or the datagram a descriptor is born
      with. */
  function RoutedBy(w: World, op: Op, fd: nat): seq<Datagram>
    requires Wired(w.slots) && fd < |w.slots|
  {
    var s := w.slots;
    if !Possible(s, op) then []
    else if op.Arrive? && Open(s, op.fd) && Route(s, op.fd, op.d.src) == Some(fd) then [op.d]
    else if op.JoinNew? && op.sd == fd && Root(s, op.fd) && s[op.fd].queue != [] then [s[op.fd].queue[0]]
    else []
  }

  lemma ArriveInOrder(w: World, op: Op, fd: nat)
    requires Wired(w.slots) && fd < |w.slots| && op.Arrive?
    ensures |Step(w, op).slots| == |w.slots| && LeftBy(w, op, fd) == []
    ensures QueueOf(Step(w, op), fd) == QueueOf(w, fd) + RoutedBy(w, op, fd)
  {
    hide Route, Wired;
    var q := QueueOf(w, fd);
    assert q + [] == q;
    if Possible(w.slots, op) && Open(w.slots, op.fd) {
      RouteIsRight(w.slots, op.fd, op.d.src);
    }
  }

  /** Every other call gives a slot that it does not close its first datagram less, one that
      a descriptor is born with, or nothing. */
  lemma OtherInOrder(w: World, op: Op, fd: nat)
    requires Wired(w.slots) && fd < |w.slots| && op != Close(fd) && !op.Arrive?
    ensures |Step(w, op).slots| == |w.slots|
    ensures var q, l := QueueOf(w, fd), LeftBy(w, op, fd);
            QueueOf(Step(w, op), fd) == if l != [] then q[1..] else if q == [] then RoutedBy(w, op, fd) else q
    ensures QueueOf(w, fd) != [] ==> RoutedBy(w, op, fd) == []
  {
    hide Route, Wired;
  }

  lemma StepInOrder(w: World, op: Op, fd: nat)
    requires Wired(w.slots) && fd < |w.slots| && op != Close(fd)
    ensures |Step(w, op).slots| == |w.slots|
    ensures LeftBy(w, op, fd) + QueueOf(Step(w, op), fd) == QueueOf(w, fd) + RoutedBy(w, op, fd)
  {
    hide Step, Wired, RoutedBy;
    var q := QueueOf(w, fd);
    if op.Arrive? {
      ArriveInOrder(w, op, fd);
      assert [] + QueueOf(Step(w, op), fd) == QueueOf(Step(w, op), fd);
    } else {
      OtherInOrder(w, op, fd);
      LeftIsFirst(w, op, fd);
      assert q != [] ==> [q[0]] + q[1..] == q + [] && [] + q == q + [];
      assert [] + RoutedBy(w, op, fd) == [] + RoutedBy(w, op, fd);
    }
  }

  lemma LeftIsFirst(w: World, op: Op, fd: nat)
    requires Wired(w.slots) && fd < |w.slots|
    ensures LeftBy(w, op, fd) == [] || (QueueOf(w, fd) != [] && LeftBy(w, op, fd) == [QueueOf(w, fd)[0]])
  {
  }

  function Left(w: World, ops: seq<Op>, fd: nat): seq<Datagram>
    requires Wired(w.slots) && fd < |w.slots|
  {
    if ops == [] then []
    else
      var n := |ops| - 1;
      Left(w, ops[..n], fd) + LeftBy(Run(w, ops[..n]), ops[n], fd)
  }

  function Routed(w: World, ops: seq<Op>, fd: nat): seq<Datagram>
    requires Wired(w.slots) && fd < |w.slots|
  {
    if ops == [] then []
    else
      var n := |ops| - 1;
      Routed(w, ops[..n], fd) + RoutedBy(Run(w, ops[..n]), ops[n], fd)
  }

  /** First in, first out, over every run in which the slot is not closed: what left its queue,
      in order, followed by what is in it, is what was in it followed by what was routed to
      it, in order. */
  lemma {:induction false} RunInOrder(w: World, ops: seq<Op>, fd: nat)
    requires Wired(w.slots) && fd < |w.slots| && Close(fd) !in ops
    ensures Left(w, ops, fd) + QueueOf(Run(w, ops), fd) == QueueOf(w, fd) + Routed(w, ops, fd)
  {
    hide Wired, LeftBy, RoutedBy, Step;
    if ops == [] {
      assert [] + QueueOf(w, fd) == QueueOf(w, fd) + [];
    } else {
      var n := |ops| - 1;
      var front := ops[..n];
      var v := Run(w, front);
      RunInOrder(w, front, fd);
      StepInOrder(v, ops[n], fd);
      Shift(Left(w, front, fd), LeftBy(v, ops[n], fd), QueueOf(v, fd), QueueOf(Step(v, ops[n]), fd),
            QueueOf(w, fd), Routed(w, front, fd), RoutedBy(v, ops[n], fd));
    }
  }

  lemma Shift(l: seq<Datagram>, m: seq<Datagram>, q: seq<Datagram>, p: seq<Datagram>, o: seq<Datagram>,
              r: seq<Datagram>, t: seq<Datagram>)
    requires l + q == o + r && m + p == q + t
    ensures l + m + p == o + (r + t)
  {
    assert l + m + p == l + (m + p);
    assert l + (q + t) == l + q + t;
    assert o + r + t == o + (r + t);
  }

  /** In a run whose callers re-peer only roots with an empty queue, every queue of a slot
      with a peer holds datagrams of that peer only. */
  lemma {:induction false} RunSorted(w: World, ops: seq<Op>)
    requires Wired(w.slots) && Sorted(w.slots)
    requires forall k :: 0 <= k < |ops| ==> Careful(Run(w, ops[..k]).slots, ops[k])
    ensures Sorted(Run(w, ops).slots)
  {
    hide Wired, Sorted, Step;
    if ops != [] {
      var n := |ops| - 1;
      forall k | 0 <= k < n
        ensures Careful(Run(w, ops[..n][..k]).slots, ops[..n][k])
      {
        assert ops[..n][..k] == ops[..k];
        assert Careful(Run(w, ops[..k]).slots, ops[k]);
      }
      RunSorted(w, ops[..n]);
      assert Careful(Run(w, ops[..n]).slots, ops[n]);
      StepSorted(Run(w, ops[..n]), ops[n]);
    }
  }

  /** The table before the first call. */
  function Blank(n: nat): World {
    World(seq(n, _ => CLOSED), multiset{}, multiset{}, multiset{})
  }

  lemma {:induction false} BlankQueued(s: seq<Slot>)
    requires forall i :: 0 <= i < |s| ==> s[i] == CLOSED
    ensures Queued(s) == multiset{}
  {
    if s != [] {
      BlankQueued(s[..|s| - 1]);
    }
  }

  /** So all of it holds after every run from the first call on. */
  lemma AlwaysWiredAndConserved(n: nat, ops: seq<Op>)
    ensures Wired(Blank(n).slots) && Wired(Run(Blank(n), ops).slots) && Conserved(Run(Blank(n), ops))
    ensures (forall k :: 0 <= k < |ops| ==> Careful(Run(Blank(n), ops[..k]).slots, ops[k]))
            ==> Sorted(Run(Blank(n), ops).slots)
  {
    BlankQueued(Blank(n).slots);
    assert Wired(Blank(n).slots) && Sorted(Blank(n).slots) && Conserved(Blank(n));
    hide Run, Wired, Sorted, Conserved;
    RunKeeps(Blank(n), ops);
    if forall k :: 0 <= k < |ops| ==> Careful(Run(Blank(n), ops[..k]).slots, ops[k]) {
      RunSorted(Blank(n), ops);
    }
  }

  /** Re-peering a root that still holds a stranger's datagram mixes the queues up. */
  lemma RepeeringMixes(w: World, d: Datagram, peer: Addr)
    requires Wired(w.slots) && w.slots == [Slot(0, NOBODY, [d])] && peer.family != 0 && peer.data != d.src.data
    ensures Sorted(w.slots) && !Sorted(Step(w, JoinHere(0, peer)).slots)
  {
    var t := Step(w, JoinHere(0, peer)).slots;
    assert t[0] == Slot(0, peer, [d]) && d in t[0].queue;
    assert !FromPeer(t[0]);
  }

  // ---------------------------------------------------------------- the table in place

  /** The array of dgramblk. */
  class Demux {
    const peers: array<Slot>
    ghost var world: World

    ghost predicate Valid()
      reads this, peers
    {
      peers[..] == world.slots && Wired(world.slots)
    }

    /** The table start_udp_server allocates at its first call. */
    constructor (maxpeers: nat)
      ensures Valid() && fresh(peers) && peers.Length == maxpeers
      ensures world == Blank(maxpeers)
    {
      peers := new Slot[maxpeers](_ => CLOSED);
      world := Blank(maxpeers);
      new;
      assert peers[..] == world.slots;
    }

    /** start_udp_server, with the descriptor socket() gave. */
    method StartServer(sd: nat)
      requires Valid() && sd < peers.Length && peers[sd] == CLOSED
      modifies this, peers
      ensures Valid() && world == Step(old(world), Start(sd))
    {
      StepWired(world, Start(sd));
      peers[sd] := peers[sd].(parent := sd);
      world := Step(world, Start(sd));
    }

    /** join_dgram_aux for a new descriptor, which dup() gave, once select has looked at fd. */
    method JoinNewFd(fd: int, sd: nat) returns (ok: bool)
      requires Valid() && sd < peers.Length && peers[sd] == CLOSED
      modifies this, peers
      ensures Valid() && world == Step(old(world), JoinNew(fd, sd))
      ensures ok == (old(Root(world.slots, fd)) && old(world).slots[fd].queue != [])
    {
      StepWired(world, JoinNew(fd, sd));
      if fd < 0 || fd >= peers.Length || peers[fd].parent != fd {
        return false;
      }
      if |peers[fd].queue| == 0 {
        return false;
      }
      var qb := peers[fd].queue[0];
      peers[fd] := peers[fd].(queue := peers[fd].queue[1..]);
      peers[sd] := Slot(fd, qb.src, peers[sd].queue + [qb]);
      assert CLOSED.queue + [qb] == [qb];
      world := Step(world, JoinNew(fd, sd));
      ok := true;
    }

    /** join_dgram_aux on fd itself, and hack_dgram_socket. */
    method SetPeer(fd: int, peer: Addr) returns (ok: bool)
      requires Valid()
      modifies this, peers
      ensures Valid() && world == Step(old(world), JoinHere(fd, peer)) && ok == old(Root(world.slots, fd))
    {
      StepWired(world, JoinHere(fd, peer));
      if fd < 0 || fd >= peers.Length || peers[fd].parent != fd {
        return false;
      }
      peers[fd] := peers[fd].(peer := peer);
      world := Step(world, JoinHere(fd, peer));
      ok := true;
    }

    /** The end of read_dgram_socket: the oldest datagram, None when there is none. */
    method ReadQueue(fd: int) returns (d: Option<Datagram>)
      requires Valid()
      modifies this, peers
      ensures Valid() && world == Step(old(world), ReadFrom(fd))
      ensures d == if old(Open(world.slots, fd)) && old(world).slots[fd].queue != []
                   then Some(old(world).slots[fd].queue[0]) else None
    {
      StepWired(world, ReadFrom(fd));
      if fd < 0 || fd >= peers.Length || peers[fd].parent == -1 || |peers[fd].queue| == 0 {
        return None;
      }
      d := Some(peers[fd].queue[0]);
      peers[fd] := peers[fd].(queue := peers[fd].queue[1..]);
      world := Step(world, ReadFrom(fd));
    }

    /** close_dgram_socket. */
    method CloseSocket(fd: int) returns (ok: bool)
      requires Valid()
      modifies this, peers
      ensures Valid() && world == Step(old(world), Close(fd)) && ok == old(Open(world.slots, fd))
    {
      StepWired(world, Close(fd));
      if fd < 0 || fd >= peers.Length || peers[fd].parent == -1 {
        return false;
      }
      peers[fd] := CLOSED;
      ghost var s := peers[..];
      for i := 0 to peers.Length
        invariant world == old(world)
        invariant forall k :: 0 <= k < i ==> peers[k] == if s[k].parent == fd then s[k].(parent := k) else s[k]
        invariant forall k :: i <= k < peers.Length ==> peers[k] == s[k]
      {
        if peers[i].parent == fd {
          peers[i] := peers[i].(parent := i);
        }
      }
      world := Step(world, Close(fd));
      assert peers[..] == world.slots;
      ok := true;
    }

    /** The search of select_dgram_socket for a sibling with the sender as its peer. */
    method FindSibling(fd: nat, data: nat) returns (k: nat)
      requires fd < peers.Length
      ensures k == FirstSibling(peers[..], fd, data, 0)
    {
      k := 0;
      while k < peers.Length && !(k != fd && peers[k].parent == peers[fd].parent && peers[k].peer.data == data)
        invariant k <= peers.Length && FirstSibling(peers[..], fd, data, 0) == FirstSibling(peers[..], fd, data, k)
      {
        k := k + 1;
      }
    }

    /** One datagram received on fd inside select_dgram_socket. */
    method Receive(fd: nat, d: Datagram)
      requires Valid() && fd < peers.Length && d.src.family != 0
      modifies this, peers
      ensures Valid() && world == Step(old(world), Arrive(fd, d))
    {
      StepWired(world, Arrive(fd, d));
      if peers[fd].parent == -1 {
        return;
      }
      RouteIsRight(world.slots, fd, d.src);
      var vp: nat := fd;
      if d.src.data != peers[fd].peer.data {
        vp := FindSibling(fd, d.src.data);
        if vp >= peers.Length {
          vp := peers[fd].parent;
          if peers[vp].peer.family != 0 {
            world := Step(world, Arrive(fd, d));
            return;
          }
        }
      }
      peers[vp] := Append(peers[vp], d);
      world := Step(world, Arrive(fd, d));
    }

    /** select_dgram_socket: what the kernel has ready is taken in, and then an open slot that
        was asked about is readable exactly when its queue holds something; any other
        descriptor is readable when the kernel said so. */
    method Select(asked: set<nat>, kernel: set<nat>, ready: seq<(nat, Datagram)>) returns (readable: set<nat>)
      requires Valid()
      requires Sane(ready, peers.Length)
      modifies this, peers
      ensures Valid() && world == Run(old(world), Arrivals(ready))
      ensures forall fd :: fd in readable <==> if fd in asked && Open(world.slots, fd) then world.slots[fd].queue != []
                                               else fd in kernel
    {
      hide Step, Wired;
      for i := 0 to |ready|
        invariant Valid() && world == Run(old(world), Arrivals(ready[..i]))
      {
        ArrivalsStep(ready, i);
        Receive(ready[i].0, ready[i].1);
      }
      assert ready[..|ready|] == ready;
      readable := kernel;
      for fd := 0 to peers.Length
        invariant forall k :: k in readable <==> if k < fd && k in asked && Open(peers[..], k) then peers[k].queue != []
                                                 else k in kernel
      {
        if peers[fd].parent != -1 && fd in asked {
          readable := if |peers[fd].queue| != 0 then readable + {fd} else readable - {fd};
        }
      }
    }
  
    /** read_dgram_socket: select again and again, once for every batch the kernel has, until
        something is queued; it still waits when all batches are used up in vain. */
    method ReadSocket(fd: int, batches: seq<seq<(nat, Datagram)>>) returns (d: Option<Datagram>, used: nat)
      requires Valid() && forall b :: b in batches ==> Sane(b, peers.Length)
      modifies this, peers
      ensures Valid() && used <= |batches|
      ensures world == Step(Run(old(world), Waited(batches[..used])), ReadFrom(fd))
      ensures var w := Run(old(world), Waited(batches[..used])).slots;
              d == if Open(w, fd) && w[fd].queue != [] then Some(w[fd].queue[0]) else None
      ensures old(!Open(world.slots, fd)) ==> used == 0
      ensures old(Open(world.slots, fd)) && d.None? ==> used == |batches|
      ensures forall k :: 0 <= k < used ==> (var w := Run(old(world), Waited(batches[..k])).slots;
                                             Open(w, fd) && w[fd].queue == [])
    {
      hide Step, Wired, Run;
      used := 0;
      WaitedNone(world, batches);
      if 0 <= fd < peers.Length && peers[fd].parent != -1 {
        while used < |batches| && |peers[fd].queue| == 0
          invariant Valid() && used <= |batches| && Open(peers[..], fd)
          invariant world == Run(old(world), Waited(batches[..used]))
          invariant forall k :: 0 <= k < used ==> (var w := Run(old(world), Waited(batches[..k])).slots;
                                                   Open(w, fd) && w[fd].queue == [])
        {
          WaitedStep(old(world), batches, used);
          ArrivalsOnly(batches[used]);
          StaysOpenRun(world, Arrivals(batches[used]), fd);
          assert batches[used] in batches;
          var readable := Select({fd}, {fd}, batches[used]);
          used := used + 1;
        }
      }
      d := ReadQueue(fd);
    }
  }

  /** What the kernel may have ready. */
  predicate Sane(ready: seq<(nat, Datagram)>, n: nat) {
    forall i :: 0 <= i < |ready| ==> ready[i].0 < n && ready[i].1.src.family != 0
  }

  /** The arrivals of all batches. */
  function Waited(batches: seq<seq<(nat, Datagram)>>): seq<Op> {
    if batches == [] then [] else Waited(batches[..|batches| - 1]) + Arrivals(batches[|batches| - 1])
  }

  lemma WaitedNone(w: World, batches: seq<seq<(nat, Datagram)>>)
    requires Wired(w.slots)
    ensures Run(w, Waited(batches[..0])) == w
  {
  }

  lemma WaitedStep(w: World, batches: seq<seq<(nat, Datagram)>>, k: nat)
    requires Wired(w.slots) && k < |batches|
    ensures Run(w, Waited(batches[..k + 1])) == Run(Run(w, Waited(batches[..k])), Arrivals(batches[k]))
  {
    assert batches[..k + 1][..k] == batches[..k];
    RunConcat(w, Waited(batches[..k]), Arrivals(batches[k]));
  }

  lemma {:induction false} RunConcat(w: World, a: seq<Op>, b: seq<Op>)
    requires Wired(w.slots)
    ensures Run(w, a + b) == Run(Run(w, a), b)
  {
    hide Step, Wired;
    if b == [] {
      assert a + b == a;
    } else {
      var n := |b| - 1;
      RunConcat(w, a, b[..n]);
      assert (a + b)[..|a + b| - 1] == a + b[..n];
    }
  }

  predicate OnlyArrivals(ops: seq<Op>) {
    forall i :: 0 <= i < |ops| ==> ops[i].Arrive?
  }

  lemma {:induction false} ArrivalsOnly(ready: seq<(nat, Datagram)>)
    ensures OnlyArrivals(Arrivals(ready))
  {
    if ready != [] {
      ArrivalsOnly(ready[..|ready| - 1]);
    }
  }

  /** Arrivals close nothing. */
  lemma {:induction false} StaysOpenRun(w: World, ops: seq<Op>, fd: int)
    requires Wired(w.slots) && Open(w.slots, fd) && OnlyArrivals(ops)
    ensures Open(Run(w, ops).slots, fd)
  {
    hide Wired, Route;
    if ops != [] {
      var n := |ops| - 1;
      StaysOpenRun(w, ops[..n], fd);
      var v := Run(w, ops[..n]);
      StepWired(v, ops[n]);
      if Open(v.slots, ops[n].fd) {
        RouteIsRight(v.slots, ops[n].fd, ops[n].d.src);
      }
    }
  }

  function Arrivals(ready: seq<(nat, Datagram)>): seq<Op> {
    if ready == [] then [] else Arrivals(ready[..|ready| - 1]) + [Arrive(ready[|ready| - 1].0, ready[|ready| - 1].1)]
  }

  lemma ArrivalsStep(ready: seq<(nat, Datagram)>, i: nat)
    requires i < |ready|
    ensures var ops := Arrivals(ready[..i + 1]);
            ops != [] && ops[..|ops| - 1] == Arrivals(ready[..i]) && ops[|ops| - 1] == Arrive(ready[i].0, ready[i].1)
  {
    assert ready[..i + 1][..i] == ready[..i];
  }
}
