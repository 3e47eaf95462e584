/** Who gets what in the demultiplexer: from the call that makes a descriptor to the last
    datagram before it is closed, over every run in between. */
module DgramGroups {
  import opened Options
  import opened Dgram

  /** No call of the run closes fd. */
  predicate Spared(ops: seq<Op>, fd: int) {
    Close(fd) !in ops
  }

  /** No call of the run is an attempt to give fd another peer. */
  predicate Unpeered(ops: seq<Op>, fd: int) {
    forall op :: op in ops && (op.JoinHere? || op.Hack?) ==> op.fd != fd
  }

  // ---------------------------------------------------------------- what one call does

  /** A call that does not close a slot or its root leaves the slot where it is, and the peer
      of a slot that is no root, or is not the one the call is about, as it is. */
  lemma StepLeaves(w: World, op: Op, k: nat)
    requires Wired(w.slots) && Open(w.slots, k) && op != Close(k) && op != Close(w.slots[k].parent)
    ensures Wired(Step(w, op).slots) && |Step(w, op).slots| == |w.slots|
    ensures var old', new' := w.slots[k], Step(w, op).slots[k];
            new'.parent == old'.parent
            && (!((op.JoinHere? || op.Hack?) && op.fd == k && Root(w.slots, k)) ==> new'.peer == old'.peer)
  {
    hide Route, Queued;
    StepWired(w, op);
    if op.Arrive? && Open(w.slots, op.fd) {
      RouteIsRight(w.slots, op.fd, op.d.src);
    }
  }

  /** An open slot keeps its root, and its peer if it is not the root itself or nobody gives
      it a new one, over every run that closes neither of the two. */
  lemma {:induction false} RunLeaves(w: World, ops: seq<Op>, k: nat)
    requires Wired(w.slots) && Open(w.slots, k) && Spared(ops, k) && Spared(ops, w.slots[k].parent)
    requires Root(w.slots, k) ==> Unpeered(ops, k)
    ensures Run(w, ops).slots[k].parent == w.slots[k].parent && Run(w, ops).slots[k].peer == w.slots[k].peer
  {
    hide Wired, Step;
    if ops != [] {
      var n := |ops| - 1;
      RunLeaves(w, ops[..n], k);
      assert ops[n] in ops;
      StepLeaves(Run(w, ops[..n]), ops[n], k);
    }
  }

  /** The same for the root alone, whatever its peer becomes. */
  lemma {:induction false} RootStays(w: World, ops: seq<Op>, k: nat)
    requires Wired(w.slots) && Root(w.slots, k) && Spared(ops, k)
    ensures Root(Run(w, ops).slots, k)
  {
    hide Wired, Step;
    if ops != [] {
      var n := |ops| - 1;
      RootStays(w, ops[..n], k);
      assert ops[n] in ops;
      StepLeaves(Run(w, ops[..n]), ops[n], k);
    }
  }

  // ---------------------------------------------------------------- descriptors come to be

  /** A server's descriptor hears from everybody. */
  lemma ServerHears(w: World, sd: nat, d: Datagram)
    requires Wired(w.slots) && sd < |w.slots| && w.slots[sd] == CLOSED && d.src.family != 0
    ensures var v := Step(w, Start(sd));
            Wired(v.slots) && QueueOf(v, sd) == []
            && QueueOf(Step(v, Arrive(sd, d)), sd) == [d]
  {
    var v := Step(w, Start(sd));
    StepWired(w, Start(sd));
    StepWired(v, Arrive(sd, d));
    RouteIsRight(v.slots, sd, d.src);
    assert [] + [d] == [d];
  }

  /** A descriptor made for the first datagram of a root begins with that datagram and talks
      to its sender; the root goes on with the rest. */
  lemma JoinTakes(w: World, fd: nat, sd: nat)
    requires Wired(w.slots) && Root(w.slots, fd) && QueueOf(w, fd) != []
    requires sd < |w.slots| && w.slots[sd] == CLOSED
    ensures var v := Step(w, JoinNew(fd, sd));
            Wired(v.slots) && |v.slots| == |w.slots|
            && QueueOf(v, sd) == [QueueOf(w, fd)[0]] && QueueOf(v, fd) == QueueOf(w, fd)[1..]
            && v.slots[sd].peer == QueueOf(w, fd)[0].src && v.slots[sd].parent == fd
            && forall k :: 0 <= k < |w.slots| && k != fd && k != sd ==> v.slots[k] == w.slots[k]
  {
    StepWired(w, JoinNew(fd, sd));
  }

  /** From then on, until it or the root is closed: whatever arrives on the root from that
      sender goes to the end of its queue, unless the root or an earlier descriptor of the
      root talks to the same sender; and so does what arrives on the descriptor itself. */
  lemma JoinedHears(w: World, fd: nat, sd: nat, ops: seq<Op>, d: Datagram)
    requires Wired(w.slots) && Root(w.slots, fd) && QueueOf(w, fd) != []
    requires sd < |w.slots| && w.slots[sd] == CLOSED && Spared(ops, fd) && Spared(ops, sd)
    requires d.src.family != 0 && d.src.data == QueueOf(w, fd)[0].src.data
    ensures Wired(Step(w, JoinNew(fd, sd)).slots) && |Step(w, JoinNew(fd, sd)).slots| == |w.slots|
    ensures var v := Run(Step(w, JoinNew(fd, sd)), ops);
            && |Step(v, Arrive(sd, d)).slots| == |w.slots| && |Step(v, Arrive(fd, d)).slots| == |w.slots|
            && QueueOf(Step(v, Arrive(sd, d)), sd) == QueueOf(v, sd) + [d]
            && ((forall k :: (k == fd || 0 <= k < sd) && k < |v.slots| && v.slots[k].parent == fd
                             ==> v.slots[k].peer.data != d.src.data)
                ==> QueueOf(Step(v, Arrive(fd, d)), sd) == QueueOf(v, sd) + [d])
  {
    JoinTakes(w, fd, sd);
    var u := Step(w, JoinNew(fd, sd));
    var v := Run(u, ops);
    assert u.slots[fd].parent == fd;
    RunLeaves(u, ops, sd);
    RootStays(u, ops, fd);
    hide Run, Wired;
    StepWired(v, Arrive(sd, d));
    StepWired(v, Arrive(fd, d));
    var r := FirstSibling(v.slots, fd, d.src.data, 0);
    assert Sibling(v.slots, fd, d.src.data, sd);
    assert r <= sd;
    assert r < |v.slots| && Sibling(v.slots, fd, d.src.data, r);
  }

  /** A root that was given a peer hears from it, and from nobody else that none of its
      descriptors talks to. */
  lemma PeeredHears(w: World, fd: nat, peer: Addr, d: Datagram)
    requires Wired(w.slots) && Root(w.slots, fd) && peer.family != 0 && d.src.family != 0
    ensures var v := Step(w, JoinHere(fd, peer));
            Wired(v.slots) && v == Step(w, Hack(fd, peer)) && |v.slots| == |w.slots| && QueueOf(v, fd) == QueueOf(w, fd)
            && (d.src.data == peer.data ==> QueueOf(Step(v, Arrive(fd, d)), fd) == QueueOf(v, fd) + [d])
            && (d.src.data != peer.data
                && (forall k :: 0 <= k < |w.slots| && k != fd && w.slots[k].parent == fd
                                ==> w.slots[k].peer.data != d.src.data)
                ==> Step(v, Arrive(fd, d)).slots == v.slots)
  {
    var v := Step(w, JoinHere(fd, peer));
    StepWired(w, JoinHere(fd, peer));
    StepWired(v, Arrive(fd, d));
    RouteIsRight(v.slots, fd, d.src);
    assert FirstSibling(v.slots, fd, d.src.data, 0) < |v.slots|
           ==> Sibling(v.slots, fd, d.src.data, FirstSibling(v.slots, fd, d.src.data, 0));
  }

  // ---------------------------------------------------------------- descriptors go

  /** Closing a descriptor blanks its slot and drops its queue; the descriptors it was the
      root of become roots themselves, and nobody else changes. */
  lemma CloseFrees(w: World, fd: nat)
    requires Wired(w.slots) && Open(w.slots, fd)
    ensures var v := Step(w, Close(fd));
            Wired(v.slots) && |v.slots| == |w.slots| && v.slots[fd] == CLOSED
            && v.dropped == w.dropped + multiset(QueueOf(w, fd))
            && forall k :: 0 <= k < |w.slots| && k != fd ==>
                 v.slots[k].queue == w.slots[k].queue && v.slots[k].peer == w.slots[k].peer
                 && v.slots[k].parent == if w.slots[k].parent == fd then k else w.slots[k].parent
  {
    StepWired(w, Close(fd));
  }

  /** Once their root is closed, its descriptors are apart: over every run that closes neither
      of two of them, nothing that arrives on the one goes to the other. */
  lemma OrphansApart(w: World, fd: nat, k: nat, h: nat, ops: seq<Op>, d: Datagram)
    requires Wired(w.slots) && Root(w.slots, fd) && k < |w.slots| && h < |w.slots|
    requires w.slots[k].parent == fd && w.slots[h].parent == fd && k != h && k != fd && h != fd
    requires Spared(ops, k) && Spared(ops, h)
    ensures Wired(Step(w, Close(fd)).slots)
    ensures var v := Run(Step(w, Close(fd)), ops);
            |v.slots| == |w.slots| && |Step(v, Arrive(k, d)).slots| == |w.slots|
            && Step(v, Arrive(k, d)).slots[h] == v.slots[h]
  {
    CloseFrees(w, fd);
    var u := Step(w, Close(fd));
    var v := Run(u, ops);
    RootStays(u, ops, k);
    RootStays(u, ops, h);
    hide Run;
    StepWired(v, Arrive(k, d));
    RouteIsRight(v.slots, k, d.src);
  }
}
