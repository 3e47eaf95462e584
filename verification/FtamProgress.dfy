/** What becomes of an FTAM association in every run: which states its class leaves it, and
    that a clean run can always be brought to its end. */
module FtamProgress {
  import opened Options
  import opened FtamAssociation
  import opened FtamDialogue
  import G = FtamGroups
  import J = FtamJoint
  import N = FtamNegotiation
  import R = FtamRegime

  // ---------------------------------------------------------------- the class

  /** The states a class leaves an end: no management in the transfer class, nothing but
      management in the management class, and nothing at all in the unconstrained one. */
  predicate Tame(p: Peer) {
    match p.service
    case Transferring => !p.state.Management?
    case Managing => p.state.Initialized? || p.state.Management?
    case Unconstrained => p.state.Initialized?
    case _ => true
  }

  lemma SendTame(p: Peer, m: Msg)
    requires Tame(p) && Send(p, m).Some?
    ensures Tame(Send(p, m).value) && Send(p, m).value.service == p.service
  {
    hide G.Shape, G.UnitsAllow, G.Counted;
  }

  lemma ReceiveTame(p: Peer, m: Msg)
    requires Tame(p) && !Receive(p, m).Loses?
    ensures Tame(Receive(p, m).peer) && Receive(p, m).peer.service == p.service
  {
    hide G.Emit, G.Scanned, G.Classify;
  }

  /** Over every run, clean or not, both ends stay in the states their class leaves them. */
  lemma {:induction false} ClassRuns(service: N.Class, iunits: set<N.Unit>, runits: set<N.Unit>, steps: seq<Step>)
    requires Run(Start(service, iunits, runits), steps).Some?
    ensures var j := Run(Start(service, iunits, runits), steps).value;
            && (j.i.Some? ==> j.i.value.service == service && Tame(j.i.value))
            && (j.r.Some? ==> j.r.value.service == service && Tame(j.r.value))
    decreases |steps|
  {
    hide Send, Receive, Tame;
    var start := Start(service, iunits, runits);
    if steps == [] {
      StartTame(service, iunits, runits);
    } else {
      var n := |steps| - 1;
      ClassRuns(service, iunits, runits, steps[..n]);
      var h := Run(start, steps[..n]).value;
      match steps[n] {
        case ISend(m) => SendTame(h.i.value, m);
        case RSend(m) => SendTame(h.r.value, m);
        case IRecv =>
          if !Receive(h.i.value, h.ri[0]).Loses? {
            ReceiveTame(h.i.value, h.ri[0]);
          }
        case RRecv =>
          if !Receive(h.r.value, h.ir[0]).Loses? {
            ReceiveTame(h.r.value, h.ir[0]);
          }
      }
    }
  }

  lemma StartTame(service: N.Class, iunits: set<N.Unit>, runits: set<N.Unit>)
    ensures Tame(Start(service, iunits, runits).i.value) && Tame(Start(service, iunits, runits).r.value)
  {
  }

  // ---------------------------------------------------------------- going on cleanly

  lemma CleanStep(start: Assoc, steps: seq<Step>, s: Step)
    requires Clean(start, steps) && Next(Run(start, steps).value, s).Some? && Proper(Run(start, steps).value, s)
    requires !Crossing(Next(Run(start, steps).value, s).value)
    ensures Clean(start, steps + [s]) && Run(start, steps + [s]) == Next(Run(start, steps).value, s)
  {
    hide Next, Proper, Crossing;
    assert (steps + [s])[..|steps|] == steps;
  }

  function UnderWay(j: Assoc): nat {
    |j.ir| + |j.ri|
  }

  /** What is at the head of a channel can be taken. */
  lemma DrainOnce(service: N.Class, iunits: set<N.Unit>, runits: set<N.Unit>, steps: seq<Step>) returns (s: Step)
    requires runits <= iunits && Clean(Start(service, iunits, runits), steps)
    requires UnderWay(Run(Start(service, iunits, runits), steps).value) > 0
    ensures Clean(Start(service, iunits, runits), steps + [s])
    ensures var j := Run(Start(service, iunits, runits), steps).value;
            UnderWay(Run(Start(service, iunits, runits), steps + [s]).value) < UnderWay(j)
  {
    var start := Start(service, iunits, runits);
    var j := Run(start, steps).value;
    hide Run, Clean, Good, Next, Proper, Crossing, Start;
    CleanGood(service, iunits, runits, steps);
    s := if j.ir != [] then RRecv else IRecv;
    Taken(j, s, service, iunits, runits);
    NotCrossed(start, steps);
    CleanStep(start, steps, s);
  }

  /** Whatever is under way can be taken. */
  lemma {:induction false} Drained(service: N.Class, iunits: set<N.Unit>, runits: set<N.Unit>, steps: seq<Step>)
    returns (more: seq<Step>)
    requires runits <= iunits && Clean(Start(service, iunits, runits), steps)
    ensures Clean(Start(service, iunits, runits), steps + more)
    ensures UnderWay(Run(Start(service, iunits, runits), steps + more).value) == 0
    decreases UnderWay(Run(Start(service, iunits, runits), steps).value)
  {
    hide *;
    NotCrossed(Start(service, iunits, runits), steps);
    more := [];
    assert steps + more == steps;
    if UnderWay(Run(Start(service, iunits, runits), steps).value) > 0 {
      var s := DrainOnce(service, iunits, runits, steps);
      var rest := Drained(service, iunits, runits, steps + [s]);
      more := [s] + rest;
      assert steps + more == steps + [s] + rest;
    }
  }

  lemma NotCrossed(start: Assoc, steps: seq<Step>)
    requires Clean(start, steps)
    ensures Run(start, steps).Some? && !Crossing(Run(start, steps).value)
  {
  }

  lemma Taken(j: Assoc, s: Step, service: N.Class, iunits: set<N.Unit>, runits: set<N.Unit>)
    requires Good(j, service, iunits, runits) && ((s.RRecv? && j.ir != []) || (s.IRecv? && j.ri != []))
    ensures Next(j, s).Some? && Proper(j, s)
    ensures var k := Next(j, s).value;
            UnderWay(k) < UnderWay(j) && (Crossing(k) ==> Crossing(j))
  {
    hide J.Inv, Receive;
    if s.RRecv? {
      RRecvStep(j, service, iunits, runits);
    } else {
      IRecvStep(j, service, iunits, runits);
    }
  }

  /** A turn of a dialogue is clean. */
  lemma TurnClean(start: Assoc, steps: seq<Step>, service: N.Class, iunits: set<N.Unit>, runits: set<N.Unit>,
                  last: Option<Turn>, t: Turn)
    requires Clean(start, steps) && At(Run(start, steps).value, service, iunits, runits, last)
    requires Allowed(service, iunits * runits, last, t) && Frank(t.m)
    ensures Clean(start, steps + TurnSteps(t))
    ensures Run(start, steps + TurnSteps(t)) == Run(Run(start, steps).value, TurnSteps(t))
  {
    var j := Run(start, steps).value;
    var a, b := TurnSteps(t)[0], TurnSteps(t)[1];
    TurnLaw(j, service, iunits, runits, last, t);
    RunTwo(j, a, b);
    TurnProper(j, service, iunits, runits, last, t);
    QuietCross(j, a);
    AtQuiet(Run(j, TurnSteps(t)).value, service, iunits, runits, Some(t));
    hide Run, Clean, At, Allowed, Next, Proper;
    CleanStep(start, steps, a);
    assert Proper(Next(j, a).value, b) by {
      AlwaysProper(Next(j, a).value, b);
    }
    CleanStep(start, steps + [a], b);
    assert steps + [a] + [b] == steps + TurnSteps(t);
  }

  lemma AlwaysProper(j: Assoc, s: Step)
    requires s.IRecv? || s.RRecv?
    ensures Proper(j, s)
  {
  }

  lemma AtQuiet(j: Assoc, service: N.Class, iunits: set<N.Unit>, runits: set<N.Unit>, last: Option<Turn>)
    requires At(j, service, iunits, runits, last)
    ensures !Crossing(j)
  {
  }

  lemma QuietCross(j: Assoc, s: Step)
    requires j.ir == [] && j.ri == [] && Next(j, s).Some?
    ensures !Crossing(Next(j, s).value)
  {
    hide Send, Receive;
  }

  lemma TurnProper(j: Assoc, service: N.Class, iunits: set<N.Unit>, runits: set<N.Unit>, last: Option<Turn>, t: Turn)
    requires At(j, service, iunits, runits, last) && Allowed(service, iunits * runits, last, t) && Frank(t.m)
    ensures Proper(j, TurnSteps(t)[0])
  {
    if t.m.Ask? {
      AskFits(service, iunits, runits, last, t.m);
      hide G.UnitsAllow, G.Shape, G.ClassAllows, Suits, G.LegalPdus;
    } else if t.m.Reply? {
      ReplyFits(last.value.m.q.flags, t.m.kind, t.m.g);
      hide G.Answers, Responds, G.Cut, G.Shape, G.ClassAllows, G.UnitsAllow, G.Parts;
    }
  }

  lemma {:induction false} DialogueClean(start: Assoc, steps: seq<Step>, service: N.Class, iunits: set<N.Unit>,
                                         runits: set<N.Unit>, last: Option<Turn>, d: seq<Turn>)
    requires Clean(start, steps) && At(Run(start, steps).value, service, iunits, runits, last)
    requires Dialogue(service, iunits * runits, last, d) && forall k :: 0 <= k < |d| ==> Frank(d[k].m)
    ensures Clean(start, steps + StepsOf(d)) && Run(start, steps + StepsOf(d)).Some?
    ensures At(Run(start, steps + StepsOf(d)).value, service, iunits, runits, Last(last, d))
    decreases |d|
  {
    if d == [] {
      NotCrossed(start, steps);
      assert steps + StepsOf(d) == steps;
    } else {
      hide *;
      var n := |d| - 1;
      DialogueGrows(service, iunits * runits, last, d);
      DialogueClean(start, steps, service, iunits, runits, last, d[..n]);
      StepsGrow(steps, last, d);
      TurnLeads(start, steps + StepsOf(d[..n]), service, iunits, runits, Last(last, d[..n]), d[n]);
    }
  }

  lemma StepsGrow(steps: seq<Step>, last: Option<Turn>, d: seq<Turn>)
    requires d != []
    ensures steps + StepsOf(d) == steps + StepsOf(d[..|d| - 1]) + TurnSteps(d[|d| - 1])
    ensures Last(last, d) == Some(d[|d| - 1])
  {
    hide TurnSteps;
  }

  lemma TurnLeads(start: Assoc, steps: seq<Step>, service: N.Class, iunits: set<N.Unit>, runits: set<N.Unit>,
                  last: Option<Turn>, t: Turn)
    requires Clean(start, steps) && At(Run(start, steps).value, service, iunits, runits, last)
    requires Allowed(service, iunits * runits, last, t) && Frank(t.m)
    ensures Clean(start, steps + TurnSteps(t)) && Run(start, steps + TurnSteps(t)).Some?
    ensures At(Run(start, steps + TurnSteps(t)).value, service, iunits, runits, Some(t))
  {
    TurnClean(start, steps, service, iunits, runits, last, t);
    TurnLaw(Run(start, steps).value, service, iunits, runits, last, t);
    hide Run, Clean, At, Allowed, Frank, TurnSteps;
    NotCrossed(start, steps + TurnSteps(t));
  }

  // ---------------------------------------------------------------- the unit of groups

  /** Outside of Initialized a group was taken, so the responder holds the unit of groups. */
  predicate HoldsGrouping(j: Assoc, runits: set<N.Unit>) {
    j.i.Some? && j.r.Some? && (!j.i.value.state.Initialized? || !j.r.value.state.Initialized? ==> N.Grouping in runits)
  }

  lemma {:induction false} GroupingRuns(service: N.Class, iunits: set<N.Unit>, runits: set<N.Unit>, steps: seq<Step>)
    requires runits <= iunits && Clean(Start(service, iunits, runits), steps)
    ensures HoldsGrouping(Run(Start(service, iunits, runits), steps).value, runits)
    decreases |steps|
  {
    hide Next, Proper, Crossing, Good, HoldsGrouping;
    var start := Start(service, iunits, runits);
    if steps == [] {
      StartHolds(service, iunits, runits);
    } else {
      var n := |steps| - 1;
      GroupingRuns(service, iunits, runits, steps[..n]);
      CleanGood(service, iunits, runits, steps[..n]);
      GroupingStep(Run(start, steps[..n]).value, steps[n], service, iunits, runits);
      CleanGood(service, iunits, runits, steps);
    }
  }

  lemma StartHolds(service: N.Class, iunits: set<N.Unit>, runits: set<N.Unit>)
    ensures HoldsGrouping(Start(service, iunits, runits), runits)
  {
  }

  lemma GroupingStep(j: Assoc, s: Step, service: N.Class, iunits: set<N.Unit>, runits: set<N.Unit>)
    requires Good(j, service, iunits, runits) && HoldsGrouping(j, runits) && Next(j, s).Some? && Proper(j, s)
    ensures Good(Next(j, s).value, service, iunits, runits) ==> HoldsGrouping(Next(j, s).value, runits)
  {
    hide J.Inv, G.Emit, G.RequestIn, G.ReplyIn, G.Shape, G.ClassAllows;
    if s.RRecv? && j.r.value.state.Initialized? {
      if j.ir[0].Ask? {
        assert G.UnitsAllow(runits, j.i.value.group);
      } else {
        StaysPut(j.r.value, j.ir[0]);
      }
    } else if s.IRecv? && j.i.value.state.Initialized? {
      StaysPut(j.i.value, j.ri[0]);
    }
  }

  /** Nothing but a grouped request moves an end that is Initialized. */
  lemma StaysPut(p: Peer, m: Msg)
    requires p.state.Initialized? && !m.Ask?
    ensures Receive(p, m).Loses?
  {
    hide G.Emit, G.Scanned;
  }

  // ---------------------------------------------------------------- to the end

  /** The smallest bulk-end. */
  const CLOSING := G.Request({G.FBegin, G.FClose, G.FDeselect, G.FEnd}, 2, {G.FClose, G.FDeselect})

  /** A response that answers all of a group, and refuses an open. */
  function Refusal(group: set<G.Flag>): G.Reply {
    G.Reply(group, true, false, group)
  }

  function Closing(): seq<Turn> {
    GroupScript(R.Finish, CLOSING, Refusal(CLOSING.flags))
  }

  /** What is still to be said where an activity or a group was begun. */
  function Remaining(state: R.Phase, waiting: bool, group: set<G.Flag>): seq<Turn> {
    match state
    case Initialized => []
    case Management => [Turn(false, Reply(R.Manage, Refusal(group)))]
    case BulkBegin => [Turn(false, Reply(R.Begin, Refusal(group)))]
    case BulkEnd => [Turn(false, Reply(R.Finish, Refusal(group)))]
    case DataIdle => Closing()
    case Locate => [Turn(false, Single(R.LocateRsp))] + Closing()
    case Erase => [Turn(false, Single(R.EraseRsp))] + Closing()
    case DataRead => EndOf(false) + Closing()
    case DataWrite => EndOf(true) + Closing()
    case DataFin1 => [Turn(true, Single(R.TransferEndReq)), Turn(false, Single(R.TransferEndRsp))] + Closing()
    case DataFin2 => [Turn(false, Single(R.TransferEndRsp))] + Closing()
    case DataCancel => [Turn(!waiting, Single(R.CancelRsp))] + Closing()
  }

  /** The turn that an end in this state would have been left by. */
  function Begun(state: R.Phase, waiting: bool, group: set<G.Flag>): Option<Turn> {
    match state
    case Initialized => None
    case Management => Some(Turn(true, Ask(R.Manage, G.Request(group, 0, {}))))
    case BulkBegin => Some(Turn(true, Ask(R.Begin, G.Request(group, 0, {}))))
    case BulkEnd => Some(Turn(true, Ask(R.Finish, G.Request(group, 0, {}))))
    case DataIdle => Some(Turn(false, Single(R.LocateRsp)))
    case Locate => Some(Turn(true, Single(R.LocateReq)))
    case Erase => Some(Turn(true, Single(R.EraseReq)))
    case DataRead => Some(Turn(true, Single(R.ReadReq)))
    case DataWrite => Some(Turn(true, Single(R.WriteReq)))
    case DataFin1 => Some(Turn(true, Single(R.DataEnd)))
    case DataFin2 => Some(Turn(true, Single(R.TransferEndReq)))
    case DataCancel => Some(Turn(waiting, Single(R.CancelReq)))
  }

  lemma QuietFacts(j: Assoc, service: N.Class, iunits: set<N.Unit>, runits: set<N.Unit>)
    requires Good(j, service, iunits, runits) && UnderWay(j) == 0
    ensures j.i.Some? && j.r.Some? && j.ir == [] && j.ri == []
    ensures var i, r := j.i.value, j.r.value;
            && i.init && !r.init && i.service == service && r.service == service
            && i.units == iunits && r.units == runits
            && Agreeing(i, r)
            && forall kind :: Awaiting(i.state, kind) ==> Legal(service, iunits, i.group, kind) && r.group == i.group
  {
    GoodEnds(j, service, iunits, runits);
    hide J.Inv, Legal, Send, Abs, AskedLast, RepliedAlone, Flat;
    forall kind | Awaiting(j.i.value.state, kind)
      ensures Legal(service, iunits, j.i.value.group, kind) && j.r.value.group == j.i.value.group
    {
      assert Awaiting(j.r.value.state, kind);
    }
  }

  /** A clean association with nothing under way is in lock-step. */
  lemma QuietAt(j: Assoc, service: N.Class, iunits: set<N.Unit>, runits: set<N.Unit>)
    requires Good(j, service, iunits, runits) && UnderWay(j) == 0
    ensures At(j, service, iunits, runits, Begun(j.i.value.state, j.i.value.cancel, j.i.value.group))
  {
    QuietFacts(j, service, iunits, runits);
    HeldAccess(j, service, iunits, runits);
    hide Good, Legal;
    var i := j.i.value;
    var last := Begun(i.state, i.cancel, i.group);
    if last.Some? && last.value.m.Ask? {
      assert Awaiting(i.state, last.value.m.kind);
    }
  }

  lemma HeldAccess(j: Assoc, service: N.Class, iunits: set<N.Unit>, runits: set<N.Unit>)
    requires Good(j, service, iunits, runits)
    ensures j.r.value.state.Locate? || j.r.value.state.Erase? ==> N.FileAccess in runits && N.FileAccess in iunits
  {
  }

  lemma ClosingFollows(service: N.Class, units: set<N.Unit>, last: Option<Turn>)
    requires Between(last) && N.Grouping in units && Suits(service, R.Finish)
    ensures Dialogue(service, units, last, Closing()) && Outside(Last(last, Closing()))
    ensures forall t :: t in Closing() ==> Frank(t.m)
  {
    var flags := CLOSING.flags;
    G.ShapeExact(flags, R.Finish);
    G.LegalSequence(flags, R.Finish);
    assert Fits(service, units, last, Ask(R.Finish, CLOSING)) by {
      hide G.Emit, G.LegalPdus;
    }
    hide Dialogue, G.Emit, G.LegalPdus;
    Chained(service, units, last, Closing()[0], Closing()[1], Closing()[1]);
  }

  predicate InGroup(state: R.Phase) {
    state.Management? || state.BulkBegin? || state.BulkEnd?
  }

  lemma RefusalFollows(service: N.Class, units: set<N.Unit>, last: Option<Turn>, kind: R.Group)
    requires last.Some? && last.value.m.Ask? && last.value.m.kind == kind && G.Shape(last.value.m.q.flags, kind)
    ensures var d := [Turn(false, Reply(kind, Refusal(last.value.m.q.flags)))];
            Dialogue(service, units, last, d) && Outside(Last(last, d)) && Frank(d[0].m)
  {
    var group := last.value.m.q.flags;
    G.ShapeEnds(group, kind);
    Alone(service, units, last, Turn(false, Reply(kind, Refusal(group))));
    hide Dialogue;
  }

  lemma Alone(service: N.Class, units: set<N.Unit>, last: Option<Turn>, t: Turn)
    requires Allowed(service, units, last, t)
    ensures Dialogue(service, units, last, [t])
  {
    hide Allowed;
    assert [t][..0] == [];
  }

  /** What is left to say before the closing. */
  lemma ActivityEnds(service: N.Class, units: set<N.Unit>, state: R.Phase, waiting: bool, group: set<G.Flag>)
    returns (d: seq<Turn>)
    requires !InGroup(state) && !state.Initialized?
    ensures Remaining(state, waiting, group) == d + Closing()
    ensures var last := Begun(state, waiting, group);
            Dialogue(service, units, last, d) && Between(Last(last, d)) && forall t :: t in d ==> Frank(t.m)
  {
    hide Closing;
    var last := Begun(state, waiting, group);
    var rsp := Turn(false, Single(R.TransferEndRsp));
    match state {
      case DataIdle =>
        d := [];
        assert [] + Closing() == Closing();
      case Locate =>
        d := [Turn(false, Single(R.LocateRsp))];
        Alone(service, units, last, d[0]);
      case Erase =>
        d := [Turn(false, Single(R.EraseRsp))];
        Alone(service, units, last, d[0]);
      case DataRead =>
        d := EndOf(false);
        EndFollows(service, units, last, false);
      case DataWrite =>
        d := EndOf(true);
        EndFollows(service, units, last, true);
      case DataFin1 =>
        d := [Turn(true, Single(R.TransferEndReq)), rsp];
        Chained(service, units, last, d[0], rsp, rsp);
      case DataFin2 =>
        d := [rsp];
        Alone(service, units, last, rsp);
      case DataCancel =>
        d := [Turn(!waiting, Single(R.CancelRsp))];
        Alone(service, units, last, d[0]);
      case _ =>
        assert false;
    }
  }

  lemma RemainingFollows(service: N.Class, units: set<N.Unit>, state: R.Phase, waiting: bool, group: set<G.Flag>)
    requires InGroup(state) ==> forall kind :: Awaiting(state, kind) ==> G.Shape(group, kind)
    requires !state.Initialized? && !InGroup(state) ==> N.Grouping in units && Suits(service, R.Finish)
    ensures var last, d := Begun(state, waiting, group), Remaining(state, waiting, group);
            Dialogue(service, units, last, d) && Outside(Last(last, d)) && forall t :: t in d ==> Frank(t.m)
  {
    var last := Begun(state, waiting, group);
    if InGroup(state) {
      var kind := last.value.m.kind;
      assert Awaiting(state, kind);
      RefusalFollows(service, units, last, kind);
    } else if !state.Initialized? {
      hide Dialogue, Remaining, Closing, Frank;
      var d := ActivityEnds(service, units, state, waiting, group);
      ClosingFollows(service, units, Last(last, d));
      DialogueConcat(service, units, last, d, Closing());
    }
  }

  /** Every clean run can be continued, cleanly, until both ends are Initialized and nothing
      is under way. */
  lemma Completable(service: N.Class, iunits: set<N.Unit>, runits: set<N.Unit>, steps: seq<Step>)
    returns (more: seq<Step>)
    requires runits <= iunits && Clean(Start(service, iunits, runits), steps)
    ensures Clean(Start(service, iunits, runits), steps + more)
    ensures Both(Run(Start(service, iunits, runits), steps + more).value, R.Initialized)
  {
    hide *;
    var start := Start(service, iunits, runits);
    var drain := Drained(service, iunits, runits, steps);
    var quiet := steps + drain;
    NotCrossed(start, quiet);
    var j := Run(start, quiet).value;
    CleanGood(service, iunits, runits, quiet);
    GroupingRuns(service, iunits, runits, quiet);
    ClassRuns(service, iunits, runits, quiet);
    GoodBoth(j, service, iunits, runits);
    var last, d := BegunAt(j), RemainingAt(j);
    QuietReady(j, service, iunits, runits);
    DialogueClean(start, quiet, service, iunits, runits, last, d);
    AtIdle(Run(start, quiet + StepsOf(d)).value, service, iunits, runits, Last(last, d));
    more := drain + StepsOf(d);
    assert steps + more == quiet + StepsOf(d);
  }

  lemma GoodBoth(j: Assoc, service: N.Class, iunits: set<N.Unit>, runits: set<N.Unit>)
    requires Good(j, service, iunits, runits)
    ensures j.i.Some? && j.r.Some?
  {
  }

  function BegunAt(j: Assoc): Option<Turn>
    requires j.i.Some?
  {
    Begun(j.i.value.state, j.i.value.cancel, j.i.value.group)
  }

  function RemainingAt(j: Assoc): seq<Turn>
    requires j.i.Some?
  {
    Remaining(j.i.value.state, j.i.value.cancel, j.i.value.group)
  }

  /** A quiet association is where its last turn left it, and what remains to be said may be. */
  lemma QuietReady(j: Assoc, service: N.Class, iunits: set<N.Unit>, runits: set<N.Unit>)
    requires Good(j, service, iunits, runits) && UnderWay(j) == 0 && runits <= iunits
    requires j.i.Some? && Tame(j.i.value) && HoldsGrouping(j, runits)
    ensures At(j, service, iunits, runits, BegunAt(j))
    ensures Dialogue(service, iunits * runits, BegunAt(j), RemainingAt(j))
    ensures Outside(Last(BegunAt(j), RemainingAt(j)))
    ensures forall k :: 0 <= k < |RemainingAt(j)| ==> Frank(RemainingAt(j)[k].m)
  {
    QuietAt(j, service, iunits, runits);
    GroupsLegal(j, service, iunits, runits);
    hide At, Good, Dialogue, Remaining, Begun, Frank, Outside, Last;
    RemainingFollows(service, iunits * runits, j.i.value.state, j.i.value.cancel, j.i.value.group);
  }

  lemma GroupsLegal(j: Assoc, service: N.Class, iunits: set<N.Unit>, runits: set<N.Unit>)
    requires Good(j, service, iunits, runits)
    ensures forall kind :: Awaiting(j.i.value.state, kind) ==> G.Shape(j.i.value.group, kind)
    ensures j.i.value.service == service
  {
    hide J.Inv, G.Shape;
  }
}
