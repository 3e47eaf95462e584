/** An FTAM association after F-INITIALIZE: two ends with the class and the units each of
    them holds, exchanging single PDUs, grouped requests and grouped responses over FIFO
    channels.  Safety over runs and the conditions for it.  The proofs go through the ideal
    regime of FtamJoint. */
module FtamAssociation {
  import opened Options
  import opened FtamRegime
  import G = FtamGroups
  import J = FtamJoint
  import N = FtamNegotiation

  /** struct ftamblk: what an end knows; `group` is fsb_group. */
  datatype Peer = Peer(init: bool, state: Phase, cancel: bool, service: N.Class, units: set<N.Unit>, group: set<G.Flag>)

  /** A single PDU, or the PDUs of a grouped request or response. */
  datatype Msg = Single(pdu: Pdu) | Ask(kind: Group, q: G.Request) | Reply(kind: Group, g: G.Reply)

  function Capacity(units: set<N.Unit>): Units {
    Units(N.Read in units, N.Write in units, N.FileAccess in units)
  }

  /** The end as the ideal regime sees it, with these units. */
  function Plain(p: Peer, units: set<N.Unit>): End {
    End(p.init, p.state, p.cancel, Capacity(units))
  }

  function With(p: Peer, e: End): Peer {
    p.(state := e.state, cancel := e.cancel)
  }

  predicate Grouped(m: Pdu) {
    m.GroupReq? || m.GroupRsp?
  }

  /** Issuing m: None when the primitive refuses. */
  function Send(p: Peer, m: Msg): Option<Peer> {
    var e := Plain(p, p.units);
    match m
    case Single(pdu) =>
      var sent := FtamRegime.Send(e, pdu);
      if Grouped(pdu) || sent.None? then None else Some(With(p, sent.value))
    case Ask(kind, q) =>
      if p.cancel || !G.RequestOk(e, p.service, p.units, q, kind) then None
      else Some(p.(state := G.Waiting(kind), group := q.flags))
    case Reply(kind, g) =>
      if p.cancel || !G.ReplyOk(e, p.group, g, kind) then None
      else Some(p.(state := G.Answered(g, kind)))
  }

  /** What an indication does: taken, a colliding F-CANCEL answered on the spot, or a
      protocol error that frees the block. */
  datatype Got = Takes(peer: Peer) | Settles(peer: Peer) | Loses

  function Receive(p: Peer, m: Msg): Got {
    var e := Plain(p, p.units);
    match m
    case Single(pdu) => if Grouped(pdu) then Loses else Lift(p, FtamRegime.Receive(e, pdu))
    case Ask(_, q) =>
      var found := G.RequestIn(e, p.service, p.units, G.Emit(q.flags), q.threshold);
      if found.None? then Loses else Takes(p.(state := G.Waiting(found.value.0), group := found.value.1))
    case Reply(_, g) =>
      var phase := G.ReplyIn(e, p.service, p.units, p.group, G.Emit(G.Cut(g)), g.headOk, g.openOk);
      if !p.init || phase.None? then Loses else Takes(p.(state := phase.value))
  }

  function Lift(p: Peer, got: Received): Got {
    match got
    case Taken(e) => Takes(With(p, e))
    case Answered(e) => Settles(With(p, e))
    case Lost => Loses
  }

  // ---------------------------------------------------------------- the two ends

  /** An end is gone once a protocol error has freed its block. */
  datatype Assoc = Assoc(i: Option<Peer>, r: Option<Peer>, ir: seq<Msg>, ri: seq<Msg>)

  datatype Step = ISend(m: Msg) | RSend(m: Msg) | IRecv | RRecv

  /** One step, None when it is not enabled. */
  function Next(j: Assoc, s: Step): Option<Assoc> {
    match s
    case ISend(m) =>
      if j.i.None? || Send(j.i.value, m).None? then None
      else Some(j.(i := Send(j.i.value, m), ir := j.ir + [m]))
    case RSend(m) =>
      if j.r.None? || Send(j.r.value, m).None? then None
      else Some(j.(r := Send(j.r.value, m), ri := j.ri + [m]))
    case IRecv =>
      if j.i.None? || j.ri == [] then None else Some(IGets(j, Receive(j.i.value, j.ri[0])))
    case RRecv =>
      if j.r.None? || j.ir == [] then None else Some(RGets(j, Receive(j.r.value, j.ir[0])))
  }

  function IGets(j: Assoc, got: Got): Assoc
    requires j.ri != []
  {
    match got
    case Takes(p) => j.(i := Some(p), ri := j.ri[1..])
    case Settles(p) => j.(i := Some(p), ri := j.ri[1..], ir := j.ir + [Single(CancelRsp)])
    case Loses => j.(i := None, ri := j.ri[1..])
  }

  function RGets(j: Assoc, got: Got): Assoc
    requires j.ir != []
  {
    match got
    case Takes(p) => j.(r := Some(p), ir := j.ir[1..])
    case Settles(p) => j.(r := Some(p), ir := j.ir[1..], ri := j.ri + [Single(CancelRsp)])
    case Loses => j.(r := None, ir := j.ir[1..])
  }

  /** Where these steps lead from j; None when one of them is not enabled. */
  function Run(j: Assoc, steps: seq<Step>): Option<Assoc> {
    if steps == [] then Some(j)
    else
      var k := Run(j, steps[..|steps| - 1]);
      if k.None? then None else Next(k.value, steps[|steps| - 1])
  }

  /** After F-INITIALIZE: one class, and the units each end holds. */
  function Start(service: N.Class, iunits: set<N.Unit>, runits: set<N.Unit>): Assoc {
    Assoc(Some(Peer(true, Initialized, false, service, iunits, {})),
          Some(Peer(false, Initialized, false, service, runits, {})), [], [])
  }

  /** Both ends have an F-CANCEL request under way. */
  predicate Crossing(j: Assoc) {
    Single(CancelReq) in j.ir && Single(CancelReq) in j.ri
  }

  // ---------------------------------------------------------------- the conditions

  /** A responder with these units can serve the request. */
  predicate Servable(m: Msg, units: set<N.Unit>) {
    match m
    case Single(pdu) =>
      && (pdu.ReadReq? ==> N.Read in units)
      && (pdu.WriteReq? ==> N.Write in units)
      && (pdu.LocateReq? || pdu.EraseReq? ==> N.FileAccess in units)
    case Ask(_, q) => G.UnitsAllow(units, q.flags)
    case Reply(_, _) => true
  }

  /** The response answers the request that is open, and does not hide an open that failed. */
  predicate Plainspoken(group: set<G.Flag>, m: Msg) {
    m.Reply? ==>
      && G.Answers(G.Cut(m.g), group)
      && (m.kind.Begin? && m.g.headOk && G.FOpen !in m.g.flags ==> m.g.openOk)
  }

  predicate Proper(j: Assoc, s: Step) {
    j.r.Some? ==>
      match s
      case ISend(m) => Servable(m, j.r.value.units)
      case RSend(m) => Plainspoken(j.r.value.group, m)
      case _ => true
  }

  /** Every step is enabled and proper, and cancels never cross. */
  predicate Clean(start: Assoc, steps: seq<Step>) {
    Run(start, steps).Some? && !Crossing(Run(start, steps).value)
    && (steps == [] || (Clean(start, steps[..|steps| - 1])
                        && Proper(Run(start, steps[..|steps| - 1]).value, steps[|steps| - 1])))
  }

  // ---------------------------------------------------------------- the ideal regime

  function Ideal(m: Msg): Pdu {
    match m
    case Single(pdu) => pdu
    case Ask(kind, _) => GroupReq(kind)
    case Reply(kind, g) => GroupRsp(kind, G.Answered(g, kind).DataIdle?)
  }

  function IdealAll(c: seq<Msg>): (r: seq<Pdu>)
    ensures |r| == |c| && forall k :: 0 <= k < |c| ==> r[k] == Ideal(c[k])
  {
    seq(|c|, k requires 0 <= k < |c| => Ideal(c[k]))
  }

  function IdealEnd(p: Option<Peer>, units: set<N.Unit>): Option<End> {
    if p.None? then None else Some(Plain(p.value, units))
  }

  /** Both ends with the responder's units. */
  function Abs(j: Assoc, units: set<N.Unit>): J.Joint {
    J.Joint(IdealEnd(j.i, units), IdealEnd(j.r, units), IdealAll(j.ir), IdealAll(j.ri))
  }

  function IdealStep(s: Step): J.Step {
    match s
    case ISend(m) => J.ISend(Ideal(m))
    case RSend(m) => J.RSend(Ideal(m))
    case IRecv => J.IRecv
    case RRecv => J.RRecv
  }

  predicate Awaiting(state: Phase, kind: Group) {
    state == G.Waiting(kind)
  }

  /** A group the initiator's checks let through. */
  predicate Legal(service: N.Class, units: set<N.Unit>, group: set<G.Flag>, kind: Group) {
    G.Shape(group, kind) && G.ClassAllows(service, kind) && G.UnitsAllow(units, group)
  }

  predicate Flat(c: seq<Msg>) {
    forall k :: 0 <= k < |c| && c[k].Single? ==> !Grouped(c[k].pdu)
  }

  /** A grouped request under way is the last thing the initiator sent, and is the group it
      waits for. */
  predicate AskedLast(i: Peer, ir: seq<Msg>, units: set<N.Unit>) {
    forall k :: 0 <= k < |ir| && ir[k].Ask? ==>
      k == |ir| - 1 && Awaiting(i.state, ir[k].kind) && ir[k].q.flags == i.group
      && G.Counted(i.group) == ir[k].q.threshold && G.UnitsAllow(units, i.group)
  }

  /** A grouped response under way is all that is under way, and answers the initiator. */
  predicate RepliedAlone(i: Peer, r: Peer, ir: seq<Msg>, ri: seq<Msg>) {
    forall k :: 0 <= k < |ri| && ri[k].Reply? ==>
      |ri| == 1 && ir == [] && Awaiting(i.state, ri[k].kind) && ri[k].g.flags <= i.group
      && Plainspoken(i.group, ri[k]) && (r.state.Initialized? || r.state.DataIdle?)
  }

  /** What the ideal regime does not see. */
  predicate Side(j: Assoc, service: N.Class, iunits: set<N.Unit>, runits: set<N.Unit>) {
    && j.i.Some? && j.r.Some? && runits <= iunits
    && (var i, r := j.i.value, j.r.value;
        && i.init && !r.init && i.service == service && r.service == service && i.units == iunits && r.units == runits
        && Flat(j.ir) && Flat(j.ri)
        && (forall m :: m in j.ir ==> !m.Reply?) && (forall m :: m in j.ri ==> !m.Ask?)
        && (forall k :: Awaiting(i.state, k) ==> Legal(service, iunits, i.group, k))
        && (forall k :: Awaiting(r.state, k) ==> r.group == i.group)
        && AskedLast(i, j.ir, runits) && RepliedAlone(i, r, j.ir, j.ri))
  }

  // ---------------------------------------------------------------- sending and receiving

  lemma ISendIdeal(p: Peer, m: Msg, units: set<N.Unit>)
    requires p.init && units <= p.units && Send(p, m).Some? && Servable(m, units)
    ensures FtamRegime.Send(Plain(p, units), Ideal(m)) == Some(Plain(Send(p, m).value, units))
  {
  }

  lemma RSendIdeal(p: Peer, m: Msg)
    requires !p.init && Send(p, m).Some?
    ensures FtamRegime.Send(Plain(p, p.units), Ideal(m)) == Some(Plain(Send(p, m).value, p.units))
  {
  }

  /** What the ideal regime takes with fewer units, the end takes. */
  lemma SingleTaken(p: Peer, pdu: Pdu, units: set<N.Unit>)
    requires units <= p.units && !Grouped(pdu) && FtamRegime.Receive(Plain(p, units), pdu).Taken?
    ensures var got := Receive(p, Single(pdu));
            got.Takes? && FtamRegime.Receive(Plain(p, units), pdu).end == Plain(got.peer, units)
            && got.peer == p.(state := got.peer.state, cancel := got.peer.cancel)
  {
  }

  /** An end that waits for a grouped response neither sends nor takes anything else. */
  lemma SenderFree(p: Peer, m: Msg)
    requires p.init && Send(p, m).Some?
    ensures forall kind :: !Awaiting(p.state, kind)
    ensures m.Single? ==> forall kind :: !Awaiting(Send(p, m).value.state, kind)
  {
  }

  /** A responder that owes nothing has nothing to say. */
  lemma IdleMute(p: Peer, m: Msg)
    requires !p.init && (p.state.Initialized? || p.state.DataIdle?)
    ensures Send(p, m).None?
  {
  }

  lemma AskTaken(p: Peer, m: Msg)
    requires m.Ask? && !p.init && Legal(p.service, p.units, m.q.flags, m.kind)
    requires G.Counted(m.q.flags) == m.q.threshold && FtamRegime.Receive(Plain(p, p.units), GroupReq(m.kind)).Taken?
    ensures Receive(p, m) == Takes(p.(state := G.Waiting(m.kind), group := m.q.flags))
  {
    hide G.Emit, G.RequestIn, FtamRegime.Receive;
    G.RequestRead(Plain(p, p.units), p.service, p.units, m.q.flags, m.kind);
  }

  /** The initiator takes a response if and only if it answers the group, and then is where
      the responder is if and only if the response does not hide a failed open. */
  lemma ReplyRead(i: Peer, m: Msg)
    requires m.Reply? && i.init && Awaiting(i.state, m.kind) && Legal(i.service, i.units, i.group, m.kind)
    requires m.g.flags <= i.group
    ensures var got := Receive(i, m);
            && !got.Settles? && (got.Takes? <==> G.Answers(G.Cut(m.g), i.group))
            && (got.Takes? ==>
                  got.peer == i.(state := got.peer.state)
                  && if m.kind.Begin? && m.g.headOk && G.FOpen !in m.g.flags && !m.g.openOk
                     then got.peer.state.DataIdle? && G.Answered(m.g, m.kind).Initialized?
                     else got.peer.state == G.Answered(m.g, m.kind))
  {
    var q := G.Request(i.group, G.Counted(i.group), G.Parts(i.group));
    var g := m.g.(sound := G.Parts(m.g.flags));
    var e := Plain(i, i.units).(state := if m.kind.Finish? then DataIdle else Initialized);
    var r := End(false, G.Waiting(m.kind), false, Capacity({}));
    assert G.Cut(g) == G.Cut(m.g) && G.Answered(g, m.kind) == G.Answered(m.g, m.kind);
    assert e.(state := G.Waiting(m.kind)) == Plain(i, i.units);
    hide G.Emit, G.Scanned, G.Cut;
    G.ReplyArrives(e, r, i.service, i.units, q, m.kind, g);
  }

  // ---------------------------------------------------------------- one step

  lemma IdealAppend(c: seq<Msg>, m: Msg)
    ensures IdealAll(c + [m]) == IdealAll(c) + [Ideal(m)]
  {
  }

  lemma IdealTail(c: seq<Msg>)
    requires c != []
    ensures IdealAll(c[1..]) == IdealAll(c)[1..] && IdealAll(c)[0] == Ideal(c[0])
  {
  }

  lemma IdealCrossing(j: Assoc, units: set<N.Unit>)
    requires Flat(j.ir) && Flat(j.ri)
    ensures Crossing(j) <==> J.Crossing(Abs(j, units))
  {
    IdealCancel(j.ir);
    IdealCancel(j.ri);
  }

  lemma IdealCancel(c: seq<Msg>)
    requires Flat(c)
    ensures Single(CancelReq) in c <==> CancelReq in IdealAll(c)
  {
    if Single(CancelReq) in c {
      var k :| 0 <= k < |c| && c[k] == Single(CancelReq);
      assert IdealAll(c)[k] == CancelReq;
    }
  }

  lemma ISendStep(j: Assoc, m: Msg, service: N.Class, iunits: set<N.Unit>, runits: set<N.Unit>)
    requires J.Inv(Abs(j, runits)) && Side(j, service, iunits, runits) && Servable(m, runits)
    requires Next(j, ISend(m)).Some?
    ensures var k := Next(j, ISend(m)).value;
            J.Next(Abs(j, runits), J.ISend(Ideal(m))) == Some(Abs(k, runits)) && Side(k, service, iunits, runits)
  {
    var i, r := j.i.value, j.r.value;
    ISendIdeal(i, m, runits);
    IdealAppend(j.ir, m);
    SenderFree(i, m);
    J.WaitingTogether(Plain(i, runits), Plain(r, runits), IdealAll(j.ir), IdealAll(j.ri));
    ISendSide(j, m, service, iunits, runits);
  }

  lemma ISendSide(j: Assoc, m: Msg, service: N.Class, iunits: set<N.Unit>, runits: set<N.Unit>)
    requires Side(j, service, iunits, runits) && Servable(m, runits) && Next(j, ISend(m)).Some?
    requires forall kind :: !Awaiting(j.i.value.state, kind)
    requires m.Ask? ==> forall kind :: !Awaiting(j.r.value.state, kind)
    ensures Side(Next(j, ISend(m)).value, service, iunits, runits)
  {
    SenderFree(j.i.value, m);
  }

  lemma RSendStep(j: Assoc, m: Msg, service: N.Class, iunits: set<N.Unit>, runits: set<N.Unit>)
    requires J.Inv(Abs(j, runits)) && Side(j, service, iunits, runits) && Plainspoken(j.r.value.group, m)
    requires Next(j, RSend(m)).Some?
    ensures var k := Next(j, RSend(m)).value;
            J.Next(Abs(j, runits), J.RSend(Ideal(m))) == Some(Abs(k, runits)) && Side(k, service, iunits, runits)
  {
    var i, r := j.i.value, j.r.value;
    RSendIdeal(r, m);
    IdealAppend(j.ri, m);
    if m.Reply? {
      J.WaitingTogether(Plain(i, runits), Plain(r, runits), IdealAll(j.ir), IdealAll(j.ri));
      assert Awaiting(r.state, m.kind) && j.ri == [] && j.ir == [];
    }
    RSendSide(j, m, service, iunits, runits);
  }

  lemma RSendSide(j: Assoc, m: Msg, service: N.Class, iunits: set<N.Unit>, runits: set<N.Unit>)
    requires Side(j, service, iunits, runits) && Plainspoken(j.r.value.group, m) && Next(j, RSend(m)).Some?
    requires m.Reply? ==> j.ri == [] && j.ir == [] && j.i.value.state == j.r.value.state
    ensures Side(Next(j, RSend(m)).value, service, iunits, runits)
  {
    ResponderFree(j.r.value, m);
  }

  lemma ResponderFree(p: Peer, m: Msg)
    requires !p.init && Send(p, m).Some?
    ensures !p.state.Initialized? && !p.state.DataIdle? && !m.Ask?
    ensures forall kind :: !Awaiting(Send(p, m).value.state, kind)
    ensures m.Reply? ==> Awaiting(p.state, m.kind)
  {
  }

  lemma IRecvStep(j: Assoc, service: N.Class, iunits: set<N.Unit>, runits: set<N.Unit>)
    requires J.Inv(Abs(j, runits)) && Side(j, service, iunits, runits) && Next(j, IRecv).Some?
    ensures Receive(j.i.value, j.ri[0]).Takes?
    ensures var k := Next(j, IRecv).value;
            J.Next(Abs(j, runits), J.IRecv) == Some(Abs(k, runits)) && Side(k, service, iunits, runits)
  {
    hide J.Inv;
    var i, m := j.i.value, j.ri[0];
    J.IRecvKeeps(Abs(j, runits));
    IdealTail(j.ri);
    if m.Single? {
      SingleTaken(i, m.pdu, runits);
      TakerFree(i, m.pdu, runits);
    } else {
      assert m.Reply? && RepliedAlone(i, j.r.value, j.ir, j.ri);
      ReplyRead(i, m);
    }
    IRecvSide(j, service, iunits, runits);
  }

  /** An initiator that takes a single PDU was and is not waiting for a grouped response. */
  lemma TakerFree(p: Peer, pdu: Pdu, units: set<N.Unit>)
    requires units <= p.units && !Grouped(pdu) && FtamRegime.Receive(Plain(p, units), pdu).Taken?
    ensures forall kind :: p.init ==> !Awaiting(p.state, kind)
    ensures forall kind :: !Awaiting(FtamRegime.Receive(Plain(p, units), pdu).end.state, kind)
  {
  }

  lemma IRecvSide(j: Assoc, service: N.Class, iunits: set<N.Unit>, runits: set<N.Unit>)
    requires Side(j, service, iunits, runits) && j.ri != [] && Receive(j.i.value, j.ri[0]).Takes?
    requires var i' := Receive(j.i.value, j.ri[0]).peer;
             i' == j.i.value.(state := i'.state, cancel := i'.cancel) && forall kind :: !Awaiting(i'.state, kind)
    requires j.ri[0].Single? ==> forall kind :: !Awaiting(j.i.value.state, kind)
    ensures Side(Next(j, IRecv).value, service, iunits, runits)
  {
    hide Receive;
    assert j.ri[0].Reply? ==> j.ir == [] && |j.ri| == 1;
  }

  lemma RRecvStep(j: Assoc, service: N.Class, iunits: set<N.Unit>, runits: set<N.Unit>)
    requires J.Inv(Abs(j, runits)) && Side(j, service, iunits, runits) && Next(j, RRecv).Some?
    ensures Receive(j.r.value, j.ir[0]).Takes?
    ensures var k := Next(j, RRecv).value;
            J.Next(Abs(j, runits), J.RRecv) == Some(Abs(k, runits)) && Side(k, service, iunits, runits)
  {
    hide J.Inv;
    var r, m := j.r.value, j.ir[0];
    J.RRecvKeeps(Abs(j, runits));
    IdealTail(j.ir);
    if m.Single? {
      SingleTaken(r, m.pdu, runits);
      TakerFree(r, m.pdu, runits);
    } else {
      assert m.Ask? && AskedLast(j.i.value, j.ir, runits);
      AskTaken(r, m);
    }
    RRecvSide(j, service, iunits, runits);
  }

  lemma RRecvSide(j: Assoc, service: N.Class, iunits: set<N.Unit>, runits: set<N.Unit>)
    requires Side(j, service, iunits, runits) && j.ir != [] && Receive(j.r.value, j.ir[0]).Takes?
    requires var r' := Receive(j.r.value, j.ir[0]).peer;
             var m := j.ir[0];
             if m.Ask? then r' == j.r.value.(state := G.Waiting(m.kind), group := m.q.flags)
             else r' == j.r.value.(state := r'.state, cancel := r'.cancel) && forall kind :: !Awaiting(r'.state, kind)
    ensures Side(Next(j, RRecv).value, service, iunits, runits)
  {
    hide Receive;
    assert j.ri != [] ==> !j.ri[0].Reply?;
  }

  // ---------------------------------------------------------------- clean runs

  /** The invariant of the ideal regime and its side conditions. */
  predicate Good(j: Assoc, service: N.Class, iunits: set<N.Unit>, runits: set<N.Unit>) {
    J.Inv(Abs(j, runits)) && Side(j, service, iunits, runits)
  }

  lemma StepKeeps(j: Assoc, s: Step, service: N.Class, iunits: set<N.Unit>, runits: set<N.Unit>)
    requires Good(j, service, iunits, runits) && Next(j, s).Some? && Proper(j, s) && !Crossing(Next(j, s).value)
    ensures Good(Next(j, s).value, service, iunits, runits)
  {
    hide J.Inv, J.Next, Next, J.Crossing, Crossing;
    StepSimulates(j, s, service, iunits, runits);
    var k := Next(j, s).value;
    IdealCrossing(k, runits);
    J.StepKeeps(Abs(j, runits), IdealStep(s));
  }

  /** Every proper step is one of the ideal regime. */
  lemma StepSimulates(j: Assoc, s: Step, service: N.Class, iunits: set<N.Unit>, runits: set<N.Unit>)
    requires Good(j, service, iunits, runits) && Next(j, s).Some? && Proper(j, s)
    ensures var k := Next(j, s).value;
            J.Next(Abs(j, runits), IdealStep(s)) == Some(Abs(k, runits)) && Side(k, service, iunits, runits)
  {
    hide J.Inv, J.Next, Next;
    match s
    case ISend(m) => ISendStep(j, m, service, iunits, runits);
    case RSend(m) => RSendStep(j, m, service, iunits, runits);
    case IRecv => IRecvStep(j, service, iunits, runits);
    case RRecv => RRecvStep(j, service, iunits, runits);
  }

  lemma StartGood(service: N.Class, iunits: set<N.Unit>, runits: set<N.Unit>)
    requires runits <= iunits
    ensures Good(Start(service, iunits, runits), service, iunits, runits)
  {
    assert IdealAll([]) == [];
  }

  lemma {:induction false} CleanGood(service: N.Class, iunits: set<N.Unit>, runits: set<N.Unit>, steps: seq<Step>)
    requires runits <= iunits && Clean(Start(service, iunits, runits), steps)
    ensures Good(Run(Start(service, iunits, runits), steps).value, service, iunits, runits)
    decreases |steps|
  {
    hide Good, Next, Proper, Crossing;
    var start := Start(service, iunits, runits);
    if steps == [] {
      StartGood(service, iunits, runits);
    } else {
      var front := steps[..|steps| - 1];
      CleanGood(service, iunits, runits, front);
      StepKeeps(Run(start, front).value, steps[|steps| - 1], service, iunits, runits);
    }
  }

  /** Over every clean run: both ends live; at most one of them may send F-DATA; whatever is
      at the head of a channel is accepted; once nothing is under way the ends agree on the
      state. */
  lemma Safety(service: N.Class, iunits: set<N.Unit>, runits: set<N.Unit>, steps: seq<Step>)
    requires runits <= iunits && Clean(Start(service, iunits, runits), steps)
    ensures var j := Run(Start(service, iunits, runits), steps).value;
            && j.i.Some? && j.r.Some?
            && !(Send(j.i.value, Single(Data)).Some? && Send(j.r.value, Single(Data)).Some?)
            && (j.ir != [] ==> Receive(j.r.value, j.ir[0]).Takes?)
            && (j.ri != [] ==> Receive(j.i.value, j.ri[0]).Takes?)
            && (j.ir == [] && j.ri == [] ==> Agreeing(j.i.value, j.r.value))
  {
    hide Receive, J.Inv, Run;
    CleanGood(service, iunits, runits, steps);
    var j := Run(Start(service, iunits, runits), steps).value;
    if j.ir != [] {
      RRecvStep(j, service, iunits, runits);
    }
    if j.ri != [] {
      IRecvStep(j, service, iunits, runits);
    }
    GoodEnds(j, service, iunits, runits);
  }

  /** FTerminateRequestAux: when the initiator may release the association. */
  predicate MayTerminate(p: Peer) {
    p.init && p.state.Initialized?
  }

  /** doPSfinish: when the responder takes a release for an F-TERMINATE. */
  predicate TakesTerminate(p: Peer) {
    !p.init && p.state.Initialized?
  }

  /** Over every clean run: when the initiator may terminate, nothing is under way and the
      responder takes the release; it is never an association in the middle of something
      that is given up. */
  lemma OrderlyRelease(service: N.Class, iunits: set<N.Unit>, runits: set<N.Unit>, steps: seq<Step>)
    requires runits <= iunits && Clean(Start(service, iunits, runits), steps)
    ensures var j := Run(Start(service, iunits, runits), steps).value;
            j.i.Some? && j.r.Some?
            && (MayTerminate(j.i.value) ==> j.ir == [] && j.ri == [] && TakesTerminate(j.r.value))
  {
    CleanGood(service, iunits, runits, steps);
    GoodEnds(Run(Start(service, iunits, runits), steps).value, service, iunits, runits);
  }

  /** The two ends are at the same point of the regime. */
  predicate Agreeing(i: Peer, r: Peer) {
    i.state == r.state && if i.state.DataCancel? then i.cancel != r.cancel else !i.cancel && !r.cancel
  }

  lemma GoodEnds(j: Assoc, service: N.Class, iunits: set<N.Unit>, runits: set<N.Unit>)
    requires Good(j, service, iunits, runits)
    ensures var i, r := j.i.value, j.r.value;
            && !(Send(i, Single(Data)).Some? && Send(r, Single(Data)).Some?)
            && (j.ir == [] && j.ri == [] ==> Agreeing(i, r))
            && (i.state.Initialized? ==> j.ir == [] && j.ri == [] && r.state.Initialized?)
  {
    var a := Abs(j, runits);
    J.OneSender(a);
    J.QuietWhenInitialized(a.i.value, a.r.value, a.ir, a.ri);
    assert j.ir == [] ==> a.ir == [];
    assert j.ri == [] ==> a.ri == [];
  }

  // ---------------------------------------------------------------- units

  /** With the class's mandatory units kept by the responder, every request the initiator may
      issue can be served. */
  lemma KeptUnitsServe(p: Peer, m: Msg, runits: set<N.Unit>)
    requires p.units == runits + N.Mandatory(p.service) && N.Mandatory(p.service) <= runits
    ensures Send(p, m).Some? ==> Servable(m, runits)
  {
    assert p.units == runits;
  }

  /** F-INITIALIZE leaves the two ends one class, and the initiator the responder's units and
      the mandatory ones. */
  lemma Negotiated(manage: bool, classes: set<N.Class>, units: set<N.Unit>, attrs: set<N.Attr>, management: bool,
                   refused: seq<N.Answer>, a: N.Answer)
    requires N.MakeOffer(manage, classes, units, attrs).Some?
    ensures var o := N.MakeOffer(manage, classes, units, attrs).value;
            var st := N.Indication(N.MakeRequest(o), management);
            st.Some?
            && var (after, rsp) := N.Respond(N.RespondAll(st.value, refused), a);
            rsp.Some? ==>
              N.Confirm(o, rsp.value).Some?
              && var got := N.Confirm(o, rsp.value).value;
              after.classes == {got.service} && after.units <= got.units
              && got.units == after.units + N.Mandatory(got.service)
  {
    hide N.MakeOffer, N.MakeRequest, N.Indication, N.Confirm, N.Respond, N.RespondAll;
    N.EndToEnd(manage, classes, units, attrs, management, refused, a);
  }

  lemma SendKeepsUnits(p: Peer, s: Step)
    ensures s.RSend? && Send(p, s.m).Some? ==> Send(p, s.m).value.units == p.units && Send(p, s.m).value.init == p.init
  {
  }

  lemma ReceiveKeepsUnits(p: Peer, m: Msg)
    ensures !Receive(p, m).Loses? ==> Receive(p, m).peer.units == p.units && Receive(p, m).peer.init == p.init
  {
    hide G.Emit, G.RequestIn, G.ReplyIn;
  }

  // ---------------------------------------------------------------- the responder's log

  /** What the responder sent and received over a run, oldest first. */
  function Log(j: Assoc, steps: seq<Step>): seq<J.Event>
    requires Run(j, steps).Some?
  {
    if steps == [] then []
    else
      var front := steps[..|steps| - 1];
      var log := Log(j, front);
      match steps[|steps| - 1]
      case RSend(m) => log + [J.Sent(Ideal(m))]
      case RRecv => log + [J.Got(Ideal(Run(j, front).value.ir[0]))]
      case _ => log
  }

  predicate InStep(r: Peer, latest: J.Transfer) {
    J.InStep(Plain(r, r.units), latest)
  }

  lemma SentInStep(r: Peer, latest: J.Transfer, m: Msg)
    requires InStep(r, latest) && Send(r, m).Some?
    ensures InStep(Send(r, m).value, J.Mark(latest, J.Sent(Ideal(m))))
  {
    hide J.InStep, J.Mark, FtamRegime.Send;
    assert !r.init by {
      InStepInit(r, latest);
    }
    RSendIdeal(r, m);
    J.EventInStep(Plain(r, r.units), latest, Ideal(m));
    SendKeepsUnits(r, RSend(m));
  }

  lemma InStepInit(r: Peer, latest: J.Transfer)
    requires InStep(r, latest)
    ensures !r.init
  {
  }

  lemma GotInStep(r: Peer, latest: J.Transfer, m: Msg)
    requires InStep(r, latest) && !Receive(r, m).Loses?
    ensures InStep(Receive(r, m).peer, J.Mark(latest, J.Got(Ideal(m))))
  {
    hide G.Emit, G.RequestIn, G.ReplyIn;
    J.EventInStep(Plain(r, r.units), latest, Ideal(m));
  }

  lemma {:induction false} LogInStep(service: N.Class, iunits: set<N.Unit>, runits: set<N.Unit>, steps: seq<Step>)
    requires Run(Start(service, iunits, runits), steps).Some?
    ensures var start := Start(service, iunits, runits);
            var r := Run(start, steps).value.r;
            r.Some? ==> InStep(r.value, J.Latest(Log(start, steps)))
    decreases |steps|
  {
    var start := Start(service, iunits, runits);
    if steps == [] {
      assert InStep(start.r.value, J.NoTransfer);
    } else {
      hide Send, Receive, J.Mark, InStep;
      var front := steps[..|steps| - 1];
      var k := Run(start, front).value;
      LogInStep(service, iunits, runits, front);
      var log := Log(start, front);
      match steps[|steps| - 1] {
        case RSend(m) =>
          SentInStep(k.r.value, J.Latest(log), m);
          assert (log + [J.Sent(Ideal(m))])[..|log|] == log;
        case RRecv =>
          if !Receive(k.r.value, k.ir[0]).Loses? {
            GotInStep(k.r.value, J.Latest(log), k.ir[0]);
          }
          assert (log + [J.Got(Ideal(k.ir[0]))])[..|log|] == log;
        case _ =>
      }
    }
  }

  /** Over every run, clean or not: the responder may answer F-TRANSFER-END only after the
      data sender of the latest transfer, itself when reading and the initiator when writing,
      ended the data phase. */
  lemma TransferEndAfterData(service: N.Class, iunits: set<N.Unit>, runits: set<N.Unit>, steps: seq<Step>)
    requires Run(Start(service, iunits, runits), steps).Some?
    requires Next(Run(Start(service, iunits, runits), steps).value, RSend(Single(TransferEndRsp))).Some?
    ensures var latest := J.Latest(Log(Start(service, iunits, runits), steps));
            latest.Ended? && latest.byResponder == latest.reading
  {
    LogInStep(service, iunits, runits, steps);
  }
}
