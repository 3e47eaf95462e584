/** What becomes of an FTAM association when a run stops being clean: a request the
    responder cannot serve, a response that hides a failed open, crossing F-CANCEL requests. */
module FtamFailures {
  import opened Options
  import opened FtamAssociation
  import G = FtamGroups
  import J = FtamJoint
  import N = FtamNegotiation
  import R = FtamRegime

  // ---------------------------------------------------------------- units

  /** A request the responder cannot serve is one it is lost by, in whatever state. */
  lemma UnservableLoses(r: Peer, i: Peer, m: Msg)
    requires !r.init && Send(i, m).Some? && i.init && !Servable(m, r.units)
    ensures Receive(r, m).Loses?
  {
    if m.Ask? {
      hide G.Emit, G.RequestIn, R.Receive;
      G.RequestRead(Plain(r, r.units), r.service, r.units, m.q.flags, m.kind);
    }
  }

  function Takings(steps: seq<Step>): nat {
    if steps == [] then 0 else Takings(steps[..|steps| - 1]) + if steps[|steps| - 1].RRecv? then 1 else 0
  }

  /** The first request that cannot be served costs the responder: whatever happens after
      it, the responder is gone once it has taken what was under way before and then m. */
  lemma {:induction false} UnservableIsFatal(j: Assoc, m: Msg, after: seq<Step>)
    requires j.i.Some? && j.r.Some? && j.i.value.init && !j.r.value.init && Next(j, ISend(m)).Some?
    requires !Servable(m, j.r.value.units) && Run(Next(j, ISend(m)).value, after).Some?
    ensures var k := Run(Next(j, ISend(m)).value, after).value;
            if Takings(after) > |j.ir| then k.r.None?
            else k.r.None? || (!k.r.value.init && k.r.value.units == j.r.value.units
                               && |k.ir| > |j.ir| - Takings(after) && k.ir[|j.ir| - Takings(after)] == m)
    decreases |after|
  {
    hide Send, Receive, Servable;
    if after != [] {
      var front := after[..|after| - 1];
      UnservableIsFatal(j, m, front);
      var h := Run(Next(j, ISend(m)).value, front).value;
      if h.r.Some? {
        SendKeepsUnits(h.r.value, after[|after| - 1]);
        if h.ir != [] {
          ReceiveKeepsUnits(h.r.value, h.ir[0]);
          if h.ir[0] == m {
            UnservableLoses(h.r.value, j.i.value, m);
          }
        }
      }
    }
  }

  // ---------------------------------------------------------------- replies

  /** The first response that is not plainspoken: the only step left is that the initiator
      reads it, and then the initiator is gone, or nothing is under way while the initiator
      is in the data regime and the responder is not. */
  lemma EvasiveReply(service: N.Class, iunits: set<N.Unit>, runits: set<N.Unit>, steps: seq<Step>, m: Msg)
    requires runits <= iunits && Clean(Start(service, iunits, runits), steps)
    requires var j := Run(Start(service, iunits, runits), steps).value;
             Next(j, RSend(m)).Some? && !Plainspoken(j.r.value.group, m)
    ensures var k := Next(Run(Start(service, iunits, runits), steps).value, RSend(m)).value;
            && (forall s :: Next(k, s).Some? ==> s.IRecv?) && Next(k, IRecv).Some?
            && (var l := Next(k, IRecv).value;
                l.i.None? || (l.r.Some? && l.ir == [] && l.ri == [] && Parted(l.i.value, l.r.value)))
  {
    CleanGood(service, iunits, runits, steps);
    var j := Run(Start(service, iunits, runits), steps).value;
    var i, r := j.i.value, j.r.value;
    var a := Abs(j, runits);
    J.WaitingTogether(a.i.value, a.r.value, a.ir, a.ri);
    ResponderFree(r, m);
    assert |a.ir| == |j.ir| && |a.ri| == |j.ri|;
    assert j.ir == [] && j.ri == [] && Awaiting(i.state, m.kind) && i.group == r.group;
    ReplyRead(i, m);
    OnlyReading(j, m);
  }

  /** The initiator in the data regime, the responder still outside it. */
  predicate Parted(i: Peer, r: Peer) {
    i.init && i.state.DataIdle? && !r.init && r.state.Initialized?
  }

  lemma OnlyReading(j: Assoc, m: Msg)
    requires j.i.Some? && j.r.Some? && j.ir == [] && j.ri == [] && m.Reply? && Next(j, RSend(m)).Some?
    requires j.i.value.init && !j.r.value.init && Awaiting(j.i.value.state, m.kind)
    ensures var k := Next(j, RSend(m)).value;
            k.ri == [m] && (forall s :: Next(k, s).Some? ==> s.IRecv?)
  {
    var k := Next(j, RSend(m)).value;
    forall s | Next(k, s).Some?
      ensures s.IRecv?
    {
      if s.ISend? {
        SenderFree(k.i.value, s.m);
      } else if s.RSend? {
        ResponderFree(k.r.value, s.m);
      }
    }
  }

  /** Parted ends never meet again: whatever the initiator issues first, the responder is
      lost by it. */
  lemma PartedIsFatal(i: Peer, r: Peer, m: Msg)
    requires Parted(i, r) && Send(i, m).Some?
    ensures Receive(r, m).Loses?
  {
    if m.Ask? {
      hide G.Emit, G.RequestIn;
      G.RequestRead(Plain(r, r.units), r.service, r.units, m.q.flags, m.kind);
    }
  }

  /** Parted ends with nothing under way, over every continuation: only the initiator can
      issue anything, and the responder is gone once it has taken anything at all. */
  lemma {:induction false} PartedRun(j: Assoc, after: seq<Step>)
    requires j.i.Some? && j.r.Some? && Parted(j.i.value, j.r.value) && j.ir == [] && j.ri == []
    requires Run(j, after).Some?
    ensures var k := Run(j, after).value;
            && k.ri == [] && (Takings(after) > 0 ==> k.r.None?)
            && (Takings(after) == 0 ==>
                  k.r == j.r && (forall n :: 0 <= n < |after| ==> after[n].ISend?)
                  && if k.ir == [] then k.i == j.i else Send(j.i.value, k.ir[0]).Some?)
    decreases |after|
  {
    hide Send, Receive;
    if after != [] {
      var n := |after| - 1;
      var front, last := after[..n], after[n];
      PartedRun(j, front);
      var h := Run(j, front).value;
      assert forall m :: 0 <= m < n ==> after[m] == front[m];
      if h.r.Some? {
        if last.RSend? {
          IdleMute(h.r.value, last.m);
        } else if last.RRecv? {
          PartedIsFatal(j.i.value, h.r.value, h.ir[0]);
        }
      }
    }
  }

  // ---------------------------------------------------------------- crossing cancels

  /** Two ends whose cancels have crossed, neither gone. */
  ghost predicate Collision(j: Assoc, units: set<N.Unit>) {
    j.i.Some? && j.r.Some? && units == j.r.value.units && Flat(j.ir) && Flat(j.ri) && J.Collision(Abs(j, units))
  }

  /** In a collision only single PDUs are under way, and they mean the same with any units. */
  lemma CollidingSingle(p: Peer, c: seq<Msg>, units: set<N.Unit>, answered: bool)
    requires J.Colliding(Plain(p, units), IdealAll(c), answered) && Flat(c) && c != []
    ensures Unitless(c[0])
  {
    var pdus := IdealAll(c);
    assert pdus[0] == Ideal(c[0]);
    if p.state.DataCancel? {
      var junk :| (if p.init then J.BulkJunk(junk) else J.Junk(junk))
                  && pdus == junk + [R.CancelReq] + (if answered then [R.CancelRsp] else []);
      assert junk != [] ==> pdus[0] == junk[0];
      assert junk == [] ==> pdus[0] == R.CancelReq;
    }
  }

  lemma SameWithAnyUnits(p: Peer, pdu: R.Pdu, units: set<N.Unit>)
    requires Unitless(Single(pdu))
    ensures match R.Receive(Plain(p, units), pdu)
            case Taken(e) => Receive(p, Single(pdu)) == Takes(With(p, e)) && e == Plain(With(p, e), units)
            case Answered(e) => Receive(p, Single(pdu)) == Settles(With(p, e)) && e == Plain(With(p, e), units)
            case Lost => Receive(p, Single(pdu)) == Loses
  {
  }

  lemma CancelMute(p: Peer, m: Msg)
    requires p.cancel
    ensures Send(p, m).None?
  {
  }

  /** A collision lasts until an end is gone, and gets lighter with every step. */
  lemma CollisionStep(j: Assoc, s: Step, units: set<N.Unit>)
    requires Collision(j, units) && Next(j, s).Some?
    ensures var k := Next(j, s).value;
            k.i.None? || k.r.None? || (Collision(k, units) && Weight(k) < Weight(j))
  {
    hide Collision, Weight, Send, Receive;
    CollisionParts(j, units);
    match s {
      case ISend(m) => CancelMute(j.i.value, m);
      case RSend(m) => CancelMute(j.r.value, m);
      case IRecv => ICollides(j, units);
      case RRecv => RCollides(j, units);
    }
  }

  lemma ICollides(j: Assoc, units: set<N.Unit>)
    requires Collision(j, units) && j.ri != []
    ensures var k := Next(j, IRecv).value;
            k.i.None? || k.r.None? || (Collision(k, units) && Weight(k) < Weight(j))
  {
    var k := Next(j, IRecv).value;
    hide J.Collision, J.Colliding, J.Weight, J.Next, Next, Weight;
    CollisionParts(j, units);
    CollidingSingle(j.i.value, j.ri, units, j.r.value.state.DataIdle?);
    IRecvSame(j, units);
    J.CollisionStep(Abs(j, units), J.IRecv);
    WeightSame(j, units);
    WeightSame(k, units);
  }

  predicate Unitless(m: Msg) {
    m.Single? && (m.pdu.Data? || m.pdu.DataEnd? || m.pdu.TransferEndReq? || m.pdu.CancelReq? || m.pdu.CancelRsp?)
  }

  lemma IRecvSame(j: Assoc, units: set<N.Unit>)
    requires j.i.Some? && j.ri != [] && Unitless(j.ri[0]) && Flat(j.ir) && Flat(j.ri)
    ensures var k := Next(j, IRecv).value;
            J.Next(Abs(j, units), J.IRecv) == Some(Abs(k, units)) && Flat(k.ir) && Flat(k.ri) && k.r == j.r
  {
    SameWithAnyUnits(j.i.value, j.ri[0].pdu, units);
    hide R.Receive, Receive;
    IdealTail(j.ri);
    IdealAppend(j.ir, Single(R.CancelRsp));
  }

  lemma RRecvSame(j: Assoc, units: set<N.Unit>)
    requires j.r.Some? && j.ir != [] && Unitless(j.ir[0]) && Flat(j.ir) && Flat(j.ri)
    ensures var k := Next(j, RRecv).value;
            J.Next(Abs(j, units), J.RRecv) == Some(Abs(k, units)) && Flat(k.ir) && Flat(k.ri)
            && (k.r.Some? ==> k.r.value.units == j.r.value.units)
  {
    SameWithAnyUnits(j.r.value, j.ir[0].pdu, units);
    ReceiveKeepsUnits(j.r.value, j.ir[0]);
    hide R.Receive, Receive;
    IdealTail(j.ir);
    IdealAppend(j.ri, Single(R.CancelRsp));
  }

  lemma RCollides(j: Assoc, units: set<N.Unit>)
    requires Collision(j, units) && j.ir != []
    ensures var k := Next(j, RRecv).value;
            k.i.None? || k.r.None? || (Collision(k, units) && Weight(k) < Weight(j))
  {
    var k := Next(j, RRecv).value;
    hide J.Collision, J.Colliding, J.Weight, J.Next, Next, Weight;
    CollisionParts(j, units);
    CollidingSingle(j.r.value, j.ir, units, j.i.value.state.DataIdle?);
    RRecvSame(j, units);
    J.CollisionStep(Abs(j, units), J.RRecv);
    WeightSame(j, units);
    WeightSame(k, units);
  }

  lemma WeightSame(j: Assoc, units: set<N.Unit>)
    ensures Weight(j) == J.Weight(Abs(j, units))
  {
  }

  lemma CollisionParts(j: Assoc, units: set<N.Unit>)
    requires Collision(j, units)
    ensures var i, r := j.i.value, j.r.value;
            && i.cancel && r.cancel && J.Colliding(Plain(i, units), IdealAll(j.ri), r.state.DataIdle?)
            && J.Colliding(Plain(r, units), IdealAll(j.ir), i.state.DataIdle?)
    ensures j.ir + j.ri != []
  {
  }

  function Weight(j: Assoc): nat {
    J.Weight(Abs(j, {}))
  }

  lemma {:induction false} CollisionRun(j: Assoc, steps: seq<Step>, units: set<N.Unit>)
    requires Collision(j, units) && Run(j, steps).Some?
    ensures var k := Run(j, steps).value;
            k.i.None? || k.r.None? || (Collision(k, units) && |steps| + Weight(k) <= Weight(j))
    decreases |steps|
  {
    hide Collision, Weight;
    if steps != [] {
      var front := steps[..|steps| - 1];
      CollisionRun(j, front, units);
      var h := Run(j, front).value;
      if h.i.Some? && h.r.Some? {
        CollisionStep(h, steps[|steps| - 1], units);
      } else {
        GoneStays(h, steps[|steps| - 1]);
      }
    }
  }

  lemma GoneStays(j: Assoc, s: Step)
    requires Next(j, s).Some?
    ensures j.i.None? ==> Next(j, s).value.i.None?
    ensures j.r.None? ==> Next(j, s).value.r.None?
  {
    hide Send, Receive;
  }

  /** The first crossing is a collision. */
  lemma CrossingCollides(service: N.Class, iunits: set<N.Unit>, runits: set<N.Unit>, before: seq<Step>, s: Step)
    requires runits <= iunits && Clean(Start(service, iunits, runits), before)
    requires var j := Run(Start(service, iunits, runits), before).value;
             Next(j, s).Some? && Crossing(Next(j, s).value)
    ensures Collision(Next(Run(Start(service, iunits, runits), before).value, s).value, runits)
  {
    hide J.Inv, J.Collision, J.Crossing, J.Next;
    CleanGood(service, iunits, runits, before);
    var j := Run(Start(service, iunits, runits), before).value;
    CrossingStep(j, s);
    StepSimulates(j, s, service, iunits, runits);
    IdealCrossing(j, runits);
    IdealCrossing(Next(j, s).value, runits);
    J.CrossingCollides(Abs(j, runits), IdealStep(s));
  }

  /** Only the issue of a cancel makes cancels cross, and that is always proper. */
  lemma CrossingStep(j: Assoc, s: Step)
    requires Next(j, s).Some? && Crossing(Next(j, s).value) && !Crossing(j)
    ensures Proper(j, s)
  {
    hide Send, Receive;
  }

  /** Crossing cancels always cost the association: from the first crossing on, whatever
      happens, as long as neither end is gone neither may issue anything and something is
      still under way, which can go on for only so many steps; so an end is lost. */
  lemma CrossingIsFatal(service: N.Class, iunits: set<N.Unit>, runits: set<N.Unit>, before: seq<Step>, s: Step,
                        after: seq<Step>)
    requires runits <= iunits && Clean(Start(service, iunits, runits), before)
    requires var j := Next(Run(Start(service, iunits, runits), before).value, s);
             j.Some? && Crossing(j.value) && Run(j.value, after).Some?
    ensures var j := Next(Run(Start(service, iunits, runits), before).value, s).value;
            var k := Run(j, after).value;
            k.i.None? || k.r.None?
            || (k.ir + k.ri != [] && |after| <= Weight(j)
                && forall m :: Send(k.i.value, m).None? && Send(k.r.value, m).None?)
  {
    hide Send, Collision, Weight, Crossing, Next;
    CrossingCollides(service, iunits, runits, before, s);
    var j := Next(Run(Start(service, iunits, runits), before).value, s).value;
    CollisionRun(j, after, runits);
    var k := Run(j, after).value;
    if k.i.Some? && k.r.Some? {
      CollisionParts(k, runits);
      forall m
        ensures Send(k.i.value, m).None? && Send(k.r.value, m).None?
      {
        CancelMute(k.i.value, m);
        CancelMute(k.r.value, m);
      }
    }
  }
}
