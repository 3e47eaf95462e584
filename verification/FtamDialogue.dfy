/** The dialogues of an FTAM association: what either end may say next, told by what was said
    last (the diagrams of ISO 8571-4), and whole file activities.  These laws speak of
    messages alone; the states of the blocks do not occur in them. */
module FtamDialogue {
  import opened Options
  import opened FtamAssociation
  import F = FtamFailures
  import G = FtamGroups
  import N = FtamNegotiation
  import R = FtamRegime

  /** One message that is issued and taken at once; `down` when the initiator issues it. */
  datatype Turn = Turn(down: bool, m: Msg)

  function StepsOf(d: seq<Turn>): seq<Step> {
    if d == [] then [] else StepsOf(d[..|d| - 1]) + TurnSteps(d[|d| - 1])
  }

  function TurnSteps(t: Turn): seq<Step> {
    if t.down then [ISend(t.m), RRecv] else [RSend(t.m), IRecv]
  }

  // ---------------------------------------------------------------- what may follow what

  predicate Says(last: Option<Turn>, pdu: R.Pdu) {
    last.Some? && last.value.m == Single(pdu)
  }

  /** A bulk-begin was granted and every activity since is over. */
  predicate Between(last: Option<Turn>) {
    Says(last, R.LocateRsp) || Says(last, R.EraseRsp) || Says(last, R.TransferEndRsp) || Says(last, R.CancelRsp)
    || (last.Some? && last.value.m.Reply? && last.value.m.kind.Begin? && Granted(last.value.m.g))
  }

  /** No group is open: nothing was said yet, or the last one was answered for good. */
  predicate Outside(last: Option<Turn>) {
    last.None? || (last.value.m.Reply? && !(last.value.m.kind.Begin? && Granted(last.value.m.g)))
  }

  predicate Granted(g: G.Reply) {
    g.headOk && g.openOk
  }

  /** F-READ puts the responder in charge of the data, F-WRITE the initiator. */
  predicate HasData(last: Option<Turn>, down: bool) {
    (!down && Says(last, R.ReadReq)) || (down && Says(last, R.WriteReq))
    || (Says(last, R.Data) && last.value.down == down)
  }

  predicate Follows(last: Option<Turn>, t: Turn) {
    match t.m
    case Ask(kind, _) => t.down && if kind.Finish? then Between(last) else Outside(last)
    case Reply(kind, _) => !t.down && last.Some? && last.value.m.Ask? && last.value.m.kind == kind
    case Single(pdu) =>
      match pdu
      case LocateReq => t.down && Between(last)
      case EraseReq => t.down && Between(last)
      case ReadReq => t.down && Between(last)
      case WriteReq => t.down && Between(last)
      case LocateRsp => !t.down && Says(last, R.LocateReq)
      case EraseRsp => !t.down && Says(last, R.EraseReq)
      case Data => HasData(last, t.down)
      case DataEnd => HasData(last, t.down)
      case TransferEndReq => t.down && Says(last, R.DataEnd)
      case TransferEndRsp => !t.down && Says(last, R.TransferEndReq)
      case CancelReq => HasData(last, true) || HasData(last, false)
      case CancelRsp => Says(last, R.CancelReq) && last.value.down != t.down
      case GroupReq(_) => false
      case GroupRsp(_, _) => false
  }

  /** Management groups are for the classes that manage, the others for those that transfer
      or access. */
  predicate Suits(service: N.Class, kind: R.Group) {
    if kind.Manage? then service in {N.Managing, N.TransferManage, N.Accessing}
    else service in {N.Transferring, N.TransferManage, N.Accessing}
  }

  /** The message is one the units and the class are for, and a group is in order. */
  ghost predicate Fits(service: N.Class, units: set<N.Unit>, last: Option<Turn>, m: Msg) {
    match m
    case Ask(kind, q) =>
      && Suits(service, kind) && (forall f :: f in q.flags ==> G.Served(f, units))
      && G.LegalPdus(G.Emit(q.flags), kind) && |G.Emit(q.flags)| == q.threshold + 2
      && forall f :: f in q.flags ==> f.FBegin? || f.FEnd? || f in q.sound
    case Reply(_, g) => last.Some? && last.value.m.Ask? && Responds(last.value.m.q.flags, g)
    case Single(pdu) =>
      && (pdu.ReadReq? ==> N.Read in units) && (pdu.WriteReq? ==> N.Write in units)
      && (pdu.LocateReq? || pdu.EraseReq? ==> N.FileAccess in units)
  }

  /** An answer keeps to what was asked, with the brackets and the head; and with the tail
      if anything else is left, unless the head failed. */
  predicate Responds(group: set<G.Flag>, g: G.Reply) {
    g.flags <= group && {G.FBegin, G.HeadOf(group), G.FEnd} <= g.flags
    && (forall f :: f in g.flags ==> f.FBegin? || f.FEnd? || f in g.sound)
    && (G.FClose in g.flags || (g.headOk && (G.FRdattr in g.flags || G.FChattr in g.flags))
        ==> G.TailOf(group) in g.flags)
  }

  function Last(before: Option<Turn>, d: seq<Turn>): Option<Turn> {
    if d == [] then before else Some(d[|d| - 1])
  }

  ghost predicate Allowed(service: N.Class, units: set<N.Unit>, last: Option<Turn>, t: Turn) {
    Follows(last, t) && Fits(service, units, last, t.m)
  }

  /** Every turn may follow the one before it. */
  ghost predicate Dialogue(service: N.Class, units: set<N.Unit>, last: Option<Turn>, d: seq<Turn>) {
    forall k :: 0 <= k < |d| ==> Allowed(service, units, Last(last, d[..k]), d[k])
  }

  // ---------------------------------------------------------------- where a dialogue stands

  function PhaseAfter(last: Option<Turn>): R.Phase {
    if last.None? then R.Initialized
    else match last.value.m
      case Ask(kind, _) => G.Waiting(kind)
      case Reply(_, _) => if Between(last) then R.DataIdle else R.Initialized
      case Single(pdu) =>
        match pdu
        case LocateReq => R.Locate
        case EraseReq => R.Erase
        case ReadReq => R.DataRead
        case WriteReq => R.DataWrite
        case Data => if last.value.down then R.DataWrite else R.DataRead
        case DataEnd => R.DataFin1
        case TransferEndReq => R.DataFin2
        case CancelReq => R.DataCancel
        case _ => R.DataIdle
  }

  /** Both ends of an association in lock-step after `last`. */
  predicate At(j: Assoc, service: N.Class, iunits: set<N.Unit>, runits: set<N.Unit>, last: Option<Turn>) {
    j.i.Some? && j.r.Some? && j.ir == [] && j.ri == []
    && Stands(j.i.value, true, service, iunits, last) && Stands(j.r.value, false, service, runits, last)
    && (last.Some? && last.value.m.Ask? ==> Legal(service, iunits, last.value.m.q.flags, last.value.m.kind))
    && (last.Some? && last.value.m.Single? ==> !Grouped(last.value.m.pdu))
  }

  predicate Stands(p: Peer, init: bool, service: N.Class, units: set<N.Unit>, last: Option<Turn>) {
    p.init == init && p.service == service && p.units == units && p.state == PhaseAfter(last)
    && p.cancel == (Says(last, R.CancelReq) && last.value.down == init)
    && (last.Some? && last.value.m.Ask? ==> p.group == last.value.m.q.flags)
    && (Says(last, R.LocateReq) || Says(last, R.EraseReq) ==> N.FileAccess in units)
  }

  lemma StartAt(service: N.Class, iunits: set<N.Unit>, runits: set<N.Unit>)
    ensures At(Start(service, iunits, runits), service, iunits, runits, None)
  {
  }

  predicate Alive(j: Option<Assoc>) {
    j.Some? && j.value.i.Some? && j.value.r.Some?
  }

  /** A response that does not hide a failed open. */
  predicate Frank(m: Msg) {
    m.Reply? && m.kind.Begin? && m.g.headOk && G.FOpen !in m.g.flags ==> m.g.openOk
  }

  lemma RunTwo(j: Assoc, s: Step, t: Step)
    ensures Run(j, [s, t]) == if Next(j, s).None? then None else Next(Next(j, s).value, t)
  {
    hide Next;
    assert [s, t][..1] == [s] && [s][..0] == [];
    assert Run(j, []) == Some(j);
    assert Run(j, [s]) == Next(j, s);
  }

  /** Issuing t.m at p and taking it at q is possible exactly when it is allowed, and then both
      stand where t leaves them. */
  ghost predicate Turned(p: Peer, q: Peer, service: N.Class, iunits: set<N.Unit>, runits: set<N.Unit>,
                         last: Option<Turn>, t: Turn)
  {
    var ok := Send(p, t.m).Some? && !Receive(q, t.m).Loses?;
    && (ok <==> Allowed(service, iunits * runits, last, t))
    && (ok ==>
          Receive(q, t.m).Takes?
          && Stands(Send(p, t.m).value, t.down, service, if t.down then iunits else runits, Some(t))
          && Stands(Receive(q, t.m).peer, !t.down, service, if t.down then runits else iunits, Some(t)))
  }

  /** The sender p and the receiver q of t, both where `last` left them. */
  predicate Poised(p: Peer, q: Peer, service: N.Class, iunits: set<N.Unit>, runits: set<N.Unit>,
                   last: Option<Turn>, t: Turn)
  {
    Stands(p, t.down, service, if t.down then iunits else runits, last)
    && Stands(q, !t.down, service, if t.down then runits else iunits, last)
    && (last.Some? && last.value.m.Single? ==> !Grouped(last.value.m.pdu))
  }

  lemma SingleSent(p: Peer, service: N.Class, units: set<N.Unit>, last: Option<Turn>, t: Turn)
    requires Stands(p, t.down, service, units, last) && t.m.Single?
    requires last.Some? && last.value.m.Single? ==> !Grouped(last.value.m.pdu)
    ensures Send(p, t.m).Some? <==> Allowed(service, units, last, t)
  {
    hide R.Receive, G.LegalPdus, Suits, Responds, G.Served;
  }

  lemma SingleSentStands(p: Peer, service: N.Class, units: set<N.Unit>, last: Option<Turn>, t: Turn)
    requires Stands(p, t.down, service, units, last) && t.m.Single? && Send(p, t.m).Some?
    requires last.Some? && last.value.m.Single? ==> !Grouped(last.value.m.pdu)
    ensures Stands(Send(p, t.m).value, t.down, service, units, Some(t))
  {
    hide R.Receive, G.LegalPdus, Suits, Responds, G.Served;
  }

  lemma SingleRead(q: Peer, service: N.Class, units: set<N.Unit>, last: Option<Turn>, t: Turn)
    requires Stands(q, !t.down, service, units, last) && t.m.Single? && Follows(last, t)
    ensures Receive(q, t.m).Loses? <==> !Fits(service, units, last, t.m)
    ensures Fits(service, units, last, t.m) ==> Receive(q, t.m).Takes?
  {
    hide R.Send, G.LegalPdus, Suits, Responds, G.Served;
  }

  lemma SingleReadStands(q: Peer, service: N.Class, units: set<N.Unit>, last: Option<Turn>, t: Turn)
    requires Stands(q, !t.down, service, units, last) && t.m.Single? && Follows(last, t) && Receive(q, t.m).Takes?
    ensures Stands(Receive(q, t.m).peer, !t.down, service, units, Some(t))
  {
    hide R.Send, G.LegalPdus, Suits, Responds, G.Served;
  }

  lemma SingleTurn(p: Peer, q: Peer, service: N.Class, iunits: set<N.Unit>, runits: set<N.Unit>,
                   last: Option<Turn>, t: Turn)
    requires Poised(p, q, service, iunits, runits, last, t) && t.m.Single?
    ensures Turned(p, q, service, iunits, runits, last, t)
  {
    var punits, qunits := if t.down then iunits else runits, if t.down then runits else iunits;
    SingleSent(p, service, punits, last, t);
    if Send(p, t.m).Some? {
      SingleSentStands(p, service, punits, last, t);
      SingleRead(q, service, qunits, last, t);
      if Receive(q, t.m).Takes? {
        SingleReadStands(q, service, qunits, last, t);
      }
    }
    SingleFits(service, iunits, runits, last, t.m);
    hide Send, Receive, Follows, Fits;
  }

  lemma SingleFits(service: N.Class, iunits: set<N.Unit>, runits: set<N.Unit>, last: Option<Turn>, m: Msg)
    requires m.Single?
    ensures Fits(service, iunits * runits, last, m)
            <==> Fits(service, iunits, last, m) && Fits(service, runits, last, m)
  {
  }

  /** figrpchk, where the end stands. */
  lemma AskSent(p: Peer, service: N.Class, units: set<N.Unit>, last: Option<Turn>, t: Turn)
    requires Stands(p, t.down, service, units, last) && t.m.Ask?
    requires last.Some? && last.value.m.Single? ==> !Grouped(last.value.m.pdu)
    ensures Send(p, t.m)
         == if Follows(last, t) && Legal(service, units, t.m.q.flags, t.m.kind) && InOrder(t.m.q)
            then Some(p.(state := G.Waiting(t.m.kind), group := t.m.q.flags)) else None
  {
    hide G.Shape, G.ClassAllows, G.UnitsAllow, G.Counted;
  }

  predicate InOrder(q: G.Request) {
    G.Parts(q.flags) <= q.sound && G.Counted(q.flags) == q.threshold
  }

  /** The group it lets through, where the other end stands. */
  lemma AskRead(q: Peer, service: N.Class, units: set<N.Unit>, last: Option<Turn>, t: Turn)
    requires Stands(q, !t.down, service, units, last) && t.m.Ask? && Follows(last, t)
    requires G.Shape(t.m.q.flags, t.m.kind) && G.ClassAllows(service, t.m.kind) && InOrder(t.m.q)
    ensures Receive(q, t.m)
         == if G.UnitsAllow(units, t.m.q.flags)
            then Takes(q.(state := G.Waiting(t.m.kind), group := t.m.q.flags)) else Loses
  {
    G.RequestRead(Plain(q, q.units), q.service, q.units, t.m.q.flags, t.m.kind);
    hide G.Emit, G.RequestIn, G.ClassAllows, G.UnitsAllow, G.Shape, G.Counted;
  }

  lemma AskFits(service: N.Class, iunits: set<N.Unit>, runits: set<N.Unit>, last: Option<Turn>, m: Msg)
    requires m.Ask?
    ensures Fits(service, iunits * runits, last, m)
            <==> Legal(service, iunits, m.q.flags, m.kind) && G.UnitsAllow(runits, m.q.flags) && InOrder(m.q)
  {
    var flags := m.q.flags;
    G.ShapeExact(flags, m.kind);
    ClassSuits(service, m.kind);
    if G.Shape(flags, m.kind) {
      G.LegalSequence(flags, m.kind);
      UnitsServe(flags, iunits);
      UnitsServe(flags, runits);
      UnitsServe(flags, iunits * runits);
      hide G.Emit, G.LegalPdus, Suits, G.ClassAllows, G.UnitsAllow, G.Shape, G.Counted;
      assert (forall f :: f in flags ==> G.Served(f, iunits * runits))
             <==> (forall f :: f in flags ==> G.Served(f, iunits)) && forall f :: f in flags ==> G.Served(f, runits);
      hide G.Served;
    }
  }

  lemma AskTurn(p: Peer, q: Peer, service: N.Class, iunits: set<N.Unit>, runits: set<N.Unit>,
                last: Option<Turn>, t: Turn)
    requires Poised(p, q, service, iunits, runits, last, t) && t.m.Ask?
    ensures Turned(p, q, service, iunits, runits, last, t)
    ensures Send(p, t.m).Some? ==> Legal(service, iunits, t.m.q.flags, t.m.kind)
  {
    AskSent(p, service, if t.down then iunits else runits, last, t);
    AskFits(service, iunits, runits, last, t.m);
    if t.down && Follows(last, t) && Legal(service, iunits, t.m.q.flags, t.m.kind) && InOrder(t.m.q) {
      AskRead(q, service, runits, last, t);
    }
    assert Follows(last, t) ==> t.down;
    hide Send, Receive, Fits, Legal, InOrder, Follows, G.UnitsAllow;
  }

  lemma ClassSuits(service: N.Class, kind: R.Group)
    ensures G.ClassAllows(service, kind) <==> Suits(service, kind)
  {
  }

  lemma UnitsServe(flags: set<G.Flag>, units: set<N.Unit>)
    requires G.FBegin in flags
    ensures G.UnitsAllow(units, flags) <==> forall f :: f in flags ==> G.Served(f, units)
  {
  }

  /** frgrpchk, where the end stands. */
  lemma ReplySent(p: Peer, service: N.Class, units: set<N.Unit>, last: Option<Turn>, t: Turn)
    requires Stands(p, t.down, service, units, last) && t.m.Reply?
    requires last.Some? && last.value.m.Single? ==> !Grouped(last.value.m.pdu)
    ensures Send(p, t.m)
         == if Follows(last, t) && t.m.g.flags <= p.group && G.Parts(t.m.g.flags) <= t.m.g.sound
            then Some(p.(state := G.Answered(t.m.g, t.m.kind))) else None
  {
    hide G.Parts, G.Answered;
  }

  /** An answer is in order for the responder and enough for the initiator. */
  lemma ReplyFits(group: set<G.Flag>, kind: R.Group, g: G.Reply)
    requires G.Shape(group, kind)
    ensures Responds(group, g)
            <==> g.flags <= group && G.Parts(g.flags) <= g.sound && G.Answers(G.Cut(g), group)
  {
    G.ShapeEnds(group, kind);
    if g.flags <= group {
      G.CutKeepsEnds(g.flags, group, G.HeadOf(group), G.TailOf(group));
      CutAnswers(group, kind, g);
    }
  }

  lemma CutAnswers(group: set<G.Flag>, kind: R.Group, g: G.Reply)
    requires G.Shape(group, kind) && g.flags <= group
    ensures G.Answers(G.Cut(g), group)
            <==> {G.FBegin, G.HeadOf(group), G.FEnd} <= g.flags
                 && (G.FClose in g.flags || (g.headOk && (G.FRdattr in g.flags || G.FChattr in g.flags))
                     ==> G.TailOf(group) in g.flags)
  {
  }

  lemma ReplyTurn(p: Peer, q: Peer, service: N.Class, iunits: set<N.Unit>, runits: set<N.Unit>,
                  last: Option<Turn>, t: Turn)
    requires Poised(p, q, service, iunits, runits, last, t) && t.m.Reply? && Frank(t.m)
    requires last.Some? && last.value.m.Ask? ==> Legal(service, iunits, last.value.m.q.flags, last.value.m.kind)
    ensures Turned(p, q, service, iunits, runits, last, t)
  {
    ReplySent(p, service, if t.down then iunits else runits, last, t);
    if Follows(last, t) {
      assert Legal(service, iunits, last.value.m.q.flags, t.m.kind);
      ReplyFits(last.value.m.q.flags, t.m.kind, t.m.g);
      if t.m.g.flags <= q.group {
        ReplyRead(q, t.m);
      }
      AnsweredStands(t);
    }
    hide Send, Receive, Legal, G.Answers, G.Cut, G.Parts, Responds, G.Answered, Frank, Follows, PhaseAfter, G.Shape;
  }

  lemma AnsweredStands(t: Turn)
    requires t.m.Reply? && Frank(t.m)
    ensures G.Answered(t.m.g, t.m.kind) == PhaseAfter(Some(t))
  {
  }

  // ---------------------------------------------------------------- the laws

  /** One turn of an association in lock-step. */
  lemma TurnLaw(j: Assoc, service: N.Class, iunits: set<N.Unit>, runits: set<N.Unit>, last: Option<Turn>, t: Turn)
    requires At(j, service, iunits, runits, last) && Frank(t.m)
    ensures Alive(Run(j, TurnSteps(t))) <==> Allowed(service, iunits * runits, last, t)
    ensures Alive(Run(j, TurnSteps(t))) ==> At(Run(j, TurnSteps(t)).value, service, iunits, runits, Some(t))
  {
    var p, q := if t.down then j.i.value else j.r.value, if t.down then j.r.value else j.i.value;
    match t.m {
      case Single(_) => SingleTurn(p, q, service, iunits, runits, last, t);
      case Ask(_, _) => AskTurn(p, q, service, iunits, runits, last, t);
      case Reply(_, _) => ReplyTurn(p, q, service, iunits, runits, last, t);
    }
    RunTwo(j, TurnSteps(t)[0], TurnSteps(t)[1]);
    hide Run, Send, Receive, Allowed, Legal, Stands;
    assert [t.m][1..] == [];
  }

  lemma {:induction false} RunConcat(j: Assoc, a: seq<Step>, b: seq<Step>)
    ensures Run(j, a + b) == if Run(j, a).None? then None else Run(Run(j, a).value, b)
    decreases |b|
  {
    hide Next;
    if b == [] {
      assert a + b == a;
    } else {
      var n := |b| - 1;
      RunConcat(j, a, b[..n]);
      assert (a + b)[..|a| + n] == a + b[..n];
    }
  }

  lemma GoneTwice(j: Assoc, t: Turn)
    requires Alive(Run(j, TurnSteps(t)))
    ensures j.i.Some? && j.r.Some?
  {
    hide Next;
    var a, b := TurnSteps(t)[0], TurnSteps(t)[1];
    RunTwo(j, a, b);
    F.GoneStays(j, a);
    F.GoneStays(Next(j, a).value, b);
  }

  /** Two ends in lock-step, over dialogues of any length: both live to the end of the
      dialogue if and only if every message may follow the one before it and is one that
      both ends have the class and the units for. */
  lemma {:induction false} DialogueLaw(j: Assoc, service: N.Class, iunits: set<N.Unit>, runits: set<N.Unit>,
                                       last: Option<Turn>, d: seq<Turn>)
    requires At(j, service, iunits, runits, last) && forall k :: 0 <= k < |d| ==> Frank(d[k].m)
    ensures Alive(Run(j, StepsOf(d))) <==> Dialogue(service, iunits * runits, last, d)
    ensures Alive(Run(j, StepsOf(d))) ==> At(Run(j, StepsOf(d)).value, service, iunits, runits, Last(last, d))
    decreases |d|
  {
    hide At, Next, Allowed, TurnSteps, Frank, Dialogue;
    DialogueGrows(service, iunits * runits, last, d);
    if d == [] {
      AtBoth(j, service, iunits, runits, last);
    } else {
      var n := |d| - 1;
      DialogueLaw(j, service, iunits, runits, last, d[..n]);
      RunConcat(j, StepsOf(d[..n]), TurnSteps(d[n]));
      var h := Run(j, StepsOf(d[..n]));
      hide Run;
      if Alive(h) {
        TurnLaw(h.value, service, iunits, runits, Last(last, d[..n]), d[n]);
      } else if h.Some? && Alive(Run(h.value, TurnSteps(d[n]))) {
        GoneTwice(h.value, d[n]);
      }
    }
  }

  lemma AtBoth(j: Assoc, service: N.Class, iunits: set<N.Unit>, runits: set<N.Unit>, last: Option<Turn>)
    requires At(j, service, iunits, runits, last)
    ensures Alive(Some(j))
  {
  }

  lemma DialogueGrows(service: N.Class, units: set<N.Unit>, last: Option<Turn>, d: seq<Turn>)
    ensures Dialogue(service, units, last, d)
            <==> d == [] || (Dialogue(service, units, last, d[..|d| - 1])
                             && Allowed(service, units, Last(last, d[..|d| - 1]), d[|d| - 1]))
  {
    hide Allowed, Last;
    if d != [] {
      var n := |d| - 1;
      assert forall k :: 0 <= k < n ==> d[..n][k] == d[k] && d[..n][..k] == d[..k];
    }
  }

  lemma DialogueConcat(service: N.Class, units: set<N.Unit>, last: Option<Turn>, a: seq<Turn>, b: seq<Turn>)
    requires Dialogue(service, units, last, a) && Dialogue(service, units, Last(last, a), b)
    ensures Dialogue(service, units, last, a + b) && Last(last, a + b) == Last(Last(last, a), b)
  {
    hide Allowed;
    var d := a + b;
    forall k | 0 <= k < |d|
      ensures Allowed(service, units, Last(last, d[..k]), d[k])
    {
      if k < |a| {
        assert d[..k] == a[..k];
      } else {
        assert d[..k] == a + b[..k - |a|];
      }
    }
  }

  // ---------------------------------------------------------------- whole activities

  /** What an initiator does between a bulk-begin and a bulk-end: a transfer of n F-DATA, to
      its end or cancelled from either end, or an F-LOCATE or F-ERASE. */
  datatype Activity =
    | Locating | Erasing
    | Transferring(reading: bool, n: nat)
    | Cancelling(reading: bool, n: nat, down: bool)

  /** Its messages: data flow from the responder in a read, from the initiator in a write. */
  function Script(a: Activity): seq<Turn> {
    match a
    case Locating => [Turn(true, Single(R.LocateReq)), Turn(false, Single(R.LocateRsp))]
    case Erasing => [Turn(true, Single(R.EraseReq)), Turn(false, Single(R.EraseRsp))]
    case Transferring(reading, n) => Flow(reading, n) + EndOf(!reading)
    case Cancelling(reading, n, down) => Flow(reading, n) + CancelOf(down)
  }

  function EndOf(down: bool): seq<Turn> {
    [Turn(down, Single(R.DataEnd)), Turn(true, Single(R.TransferEndReq)), Turn(false, Single(R.TransferEndRsp))]
  }

  function CancelOf(down: bool): seq<Turn> {
    [Turn(down, Single(R.CancelReq)), Turn(!down, Single(R.CancelRsp))]
  }

  function Flow(reading: bool, n: nat): seq<Turn> {
    if n == 0 then [Turn(true, Single(if reading then R.ReadReq else R.WriteReq))]
    else Flow(reading, n - 1) + [Turn(!reading, Single(R.Data))]
  }

  predicate Within(a: Activity, units: set<N.Unit>) {
    match a
    case Locating => N.FileAccess in units
    case Erasing => N.FileAccess in units
    case Transferring(reading, _) => (if reading then N.Read else N.Write) in units
    case Cancelling(reading, _, _) => (if reading then N.Read else N.Write) in units
  }

  /** Both ends are in this state, nothing is under way, and nobody waits for a cancel. */
  predicate Both(j: Assoc, state: R.Phase) {
    j.i.Some? && j.r.Some? && j.ir == [] && j.ri == []
    && j.i.value.init && !j.r.value.init && j.i.value.service == j.r.value.service
    && j.i.value.state == state && j.r.value.state == state && !j.i.value.cancel && !j.r.value.cancel
  }

  function Shared(j: Assoc): set<N.Unit>
    requires j.i.Some? && j.r.Some?
  {
    j.i.value.units * j.r.value.units
  }

  /** The steps lead both ends to this state, nothing under way, on the terms they had. */
  predicate Reaches(j: Assoc, steps: seq<Step>, state: R.Phase)
    requires j.i.Some? && j.r.Some?
  {
    var k := Run(j, steps);
    k.Some? && Both(k.value, state) && Shared(k.value) == Shared(j) && k.value.i.value.service == j.i.value.service
  }

  /** A dialogue ends where its last turn leaves it. */
  lemma DialogueReaches(j: Assoc, last: Option<Turn>, d: seq<Turn>)
    requires j.i.Some? && j.r.Some?
    requires var service, iunits, runits := j.i.value.service, j.i.value.units, j.r.value.units;
             At(j, service, iunits, runits, last) && Dialogue(service, iunits * runits, last, d)
    requires forall t :: t in d ==> Frank(t.m)
    ensures Between(Last(last, d)) ==> Reaches(j, StepsOf(d), R.DataIdle)
    ensures Outside(Last(last, d)) ==> Reaches(j, StepsOf(d), R.Initialized)
  {
    var service, iunits, runits := j.i.value.service, j.i.value.units, j.r.value.units;
    hide Run, Dialogue, At, Both, StepsOf, Between, Outside, Frank;
    DialogueLaw(j, service, iunits, runits, last, d);
    AtIdle(Run(j, StepsOf(d)).value, service, iunits, runits, Last(last, d));
  }

  /** Every activity the units are for runs from its request to its last response, and leaves
      both ends where it found them. */
  lemma ActivityRuns(j: Assoc, a: Activity)
    requires Both(j, R.DataIdle) && Within(a, Shared(j))
    ensures Reaches(j, StepsOf(Script(a)), R.DataIdle)
  {
    AtStart(j, R.DataIdle);
    assert Both(j, R.DataIdle) ==> j.i.Some? && j.r.Some?;
    hide *;
    ActivityFollows(j.i.value.service, Shared(j), Before(R.DataIdle), a);
    DialogueReaches(j, Before(R.DataIdle), Script(a));
  }

  /** What may have been said last to two ends in this state. */
  function Before(state: R.Phase): Option<Turn> {
    if state.DataIdle? then Some(Turn(false, Single(R.LocateRsp))) else None
  }

  lemma AtStart(j: Assoc, state: R.Phase)
    requires Both(j, state) && (state.DataIdle? || state.Initialized?)
    ensures At(j, j.i.value.service, j.i.value.units, j.r.value.units, Before(state))
    ensures if state.DataIdle? then Between(Before(state)) else Outside(Before(state))
    ensures Shared(j) == j.i.value.units * j.r.value.units
  {
  }

  lemma AtIdle(j: Assoc, service: N.Class, iunits: set<N.Unit>, runits: set<N.Unit>, last: Option<Turn>)
    requires At(j, service, iunits, runits, last)
    ensures Between(last) ==> Both(j, R.DataIdle)
    ensures Outside(last) ==> Both(j, R.Initialized)
    ensures j.i.Some? && j.r.Some? && Shared(j) == iunits * runits && j.i.value.service == service
  {
  }

  lemma ActivityFollows(service: N.Class, units: set<N.Unit>, last: Option<Turn>, a: Activity)
    requires Between(last) && Within(a, units)
    ensures Dialogue(service, units, last, Script(a)) && Between(Last(last, Script(a)))
    ensures forall t :: t in Script(a) ==> Frank(t.m)
  {
    if a.Transferring? || a.Cancelling? {
      FlowFollows(service, units, last, a.reading, a.n);
      var flow := Flow(a.reading, a.n);
      hide Flow, Dialogue;
      if a.Transferring? {
        EndFollows(service, units, Last(last, flow), !a.reading);
        DialogueConcat(service, units, last, flow, EndOf(!a.reading));
      } else {
        CancelFollows(service, units, Last(last, flow), !a.reading, a.down);
        DialogueConcat(service, units, last, flow, CancelOf(a.down));
      }
    } else {
      hide Dialogue;
      Chained(service, units, last, Script(a)[0], Script(a)[1], Script(a)[1]);
    }
  }

  lemma EndFollows(service: N.Class, units: set<N.Unit>, last: Option<Turn>, down: bool)
    requires HasData(last, down)
    ensures Dialogue(service, units, last, EndOf(down)) && Between(Last(last, EndOf(down)))
    ensures forall t :: t in EndOf(down) ==> t.m.Single?
  {
    hide Dialogue;
    Chained(service, units, last, EndOf(down)[0], EndOf(down)[1], EndOf(down)[2]);
  }

  lemma CancelFollows(service: N.Class, units: set<N.Unit>, last: Option<Turn>, sender: bool, down: bool)
    requires HasData(last, sender)
    ensures Dialogue(service, units, last, CancelOf(down)) && Between(Last(last, CancelOf(down)))
    ensures forall t :: t in CancelOf(down) ==> t.m.Single?
  {
    hide Dialogue;
    Chained(service, units, last, CancelOf(down)[0], CancelOf(down)[1], CancelOf(down)[1]);
  }

  lemma {:induction false} FlowFollows(service: N.Class, units: set<N.Unit>, last: Option<Turn>, reading: bool, n: nat)
    requires Between(last) && (if reading then N.Read else N.Write) in units
    ensures Dialogue(service, units, last, Flow(reading, n)) && HasData(Last(last, Flow(reading, n)), !reading)
    ensures forall t :: t in Flow(reading, n) ==> t.m.Single?
  {
    hide *;
    if n == 0 {
      FlowStarts(service, units, last, reading);
    } else {
      FlowFollows(service, units, last, reading, n - 1);
      FlowGoesOn(service, units, last, reading, n);
    }
  }

  lemma FlowStarts(service: N.Class, units: set<N.Unit>, last: Option<Turn>, reading: bool)
    requires Between(last) && (if reading then N.Read else N.Write) in units
    ensures Dialogue(service, units, last, Flow(reading, 0)) && HasData(Last(last, Flow(reading, 0)), !reading)
    ensures forall t :: t in Flow(reading, 0) ==> t.m.Single?
  {
    var t := Turn(true, Single(if reading then R.ReadReq else R.WriteReq));
    assert Flow(reading, 0) == [] + [t];
    StartFollows(service, units, last, reading, t);
    Silence(service, units, last);
    hide *;
    Extended(service, units, last, [], t);
  }

  lemma StartFollows(service: N.Class, units: set<N.Unit>, last: Option<Turn>, reading: bool, t: Turn)
    requires Between(last) && (if reading then N.Read else N.Write) in units
    requires t == Turn(true, Single(if reading then R.ReadReq else R.WriteReq))
    ensures Allowed(service, units, last, t) && HasData(Some(t), !reading)
  {
  }

  lemma Silence(service: N.Class, units: set<N.Unit>, last: Option<Turn>)
    ensures Dialogue(service, units, last, []) && Last(last, []) == last
  {
  }

  lemma FlowGoesOn(service: N.Class, units: set<N.Unit>, last: Option<Turn>, reading: bool, n: nat)
    requires n > 0 && Dialogue(service, units, last, Flow(reading, n - 1))
    requires HasData(Last(last, Flow(reading, n - 1)), !reading)
    requires forall t :: t in Flow(reading, n - 1) ==> t.m.Single?
    ensures Dialogue(service, units, last, Flow(reading, n)) && HasData(Last(last, Flow(reading, n)), !reading)
    ensures forall t :: t in Flow(reading, n) ==> t.m.Single?
  {
    var t := Turn(!reading, Single(R.Data));
    DataFollows(service, units, Last(last, Flow(reading, n - 1)), t);
    assert Flow(reading, n) == Flow(reading, n - 1) + [t];
    hide *;
    Extended(service, units, last, Flow(reading, n - 1), t);
  }

  lemma DataFollows(service: N.Class, units: set<N.Unit>, last: Option<Turn>, t: Turn)
    requires HasData(last, t.down) && t.m == Single(R.Data)
    ensures Allowed(service, units, last, t) && HasData(Some(t), t.down)
  {
  }

  lemma Extended(service: N.Class, units: set<N.Unit>, last: Option<Turn>, d: seq<Turn>, t: Turn)
    requires Dialogue(service, units, last, d) && Allowed(service, units, Last(last, d), t)
    ensures Dialogue(service, units, last, d + [t]) && Last(last, d + [t]) == Some(t)
  {
    assert (d + [t])[..|d|] == d;
    DialogueGrows(service, units, last, d + [t]);
    hide Dialogue, Allowed;
  }

  /** A dialogue of two or three turns. */
  lemma Chained(service: N.Class, units: set<N.Unit>, last: Option<Turn>, a: Turn, b: Turn, c: Turn)
    requires Allowed(service, units, last, a) && Allowed(service, units, Some(a), b)
    ensures Dialogue(service, units, last, [a, b])
    ensures Allowed(service, units, Some(b), c) ==> Dialogue(service, units, last, [a, b, c])
  {
    assert Dialogue(service, units, last, []);
    hide Dialogue, Allowed;
    Extended(service, units, last, [], a);
    assert [] + [a] == [a];
    Extended(service, units, last, [a], b);
    assert [a] + [b] == [a, b];
    if Allowed(service, units, Some(b), c) {
      Extended(service, units, last, [a, b], c);
      assert [a, b] + [c] == [a, b, c];
    }
  }

  // ---------------------------------------------------------------- whole sessions

  function GroupScript(kind: R.Group, q: G.Request, g: G.Reply): seq<Turn> {
    [Turn(true, Ask(kind, q)), Turn(false, Reply(kind, g))]
  }

  /** Every group in order that the class and the units of both ends are for is sent, taken
      and answered, into the data regime when it is a granted bulk-begin and out of all of
      it otherwise. */
  lemma GroupRuns(j: Assoc, kind: R.Group, q: G.Request, g: G.Reply)
    requires Both(j, if kind.Finish? then R.DataIdle else R.Initialized)
    requires Fits(j.i.value.service, Shared(j), None, Ask(kind, q)) && Responds(q.flags, g) && Frank(Reply(kind, g))
    ensures Reaches(j, StepsOf(GroupScript(kind, q, g)),
                    if kind.Begin? && Granted(g) then R.DataIdle else R.Initialized)
  {
    var last := Before(if kind.Finish? then R.DataIdle else R.Initialized);
    AtStart(j, if kind.Finish? then R.DataIdle else R.Initialized);
    GroupFollows(j.i.value.service, Shared(j), last, kind, q, g);
    hide *;
    DialogueReaches(j, last, GroupScript(kind, q, g));
  }

  lemma GroupFollows(service: N.Class, units: set<N.Unit>, last: Option<Turn>, kind: R.Group, q: G.Request, g: G.Reply)
    requires if kind.Finish? then Between(last) else Outside(last)
    requires Fits(service, units, None, Ask(kind, q)) && Responds(q.flags, g) && Frank(Reply(kind, g))
    ensures var d := GroupScript(kind, q, g);
            && Dialogue(service, units, last, d) && (forall t :: t in d ==> Frank(t.m))
            && if kind.Begin? && Granted(g) then Between(Last(last, d)) else Outside(Last(last, d))
  {
    var d := GroupScript(kind, q, g);
    hide Dialogue, Responds, G.LegalPdus, G.Served, Suits;
    Chained(service, units, last, d[0], d[1], d[1]);
  }

  function ActivitiesSteps(activities: seq<Activity>): seq<Step> {
    if activities == [] then []
    else ActivitiesSteps(activities[..|activities| - 1]) + StepsOf(Script(activities[|activities| - 1]))
  }

  lemma {:induction false} ActivitiesRun(j: Assoc, activities: seq<Activity>)
    requires Both(j, R.DataIdle) && forall a :: a in activities ==> Within(a, Shared(j))
    ensures Reaches(j, ActivitiesSteps(activities), R.DataIdle)
    decreases |activities|
  {
    hide Script, Both, Within, StepsOf;
    if activities == [] {
      assert Run(j, []) == Some(j);
    } else {
      hide Run;
      var n := |activities| - 1;
      assert forall a :: a in activities[..n] ==> a in activities;
      ActivitiesRun(j, activities[..n]);
      RunConcat(j, ActivitiesSteps(activities[..n]), StepsOf(Script(activities[n])));
      assert activities[n] in activities;
      ActivityRuns(Run(j, ActivitiesSteps(activities[..n])).value, activities[n]);
    }
  }

  /** The association can be released between groups and at no other time, by the initiator
      alone; and the responder takes a release exactly then. */
  lemma ReleaseLaw(j: Assoc, service: N.Class, iunits: set<N.Unit>, runits: set<N.Unit>, last: Option<Turn>)
    requires At(j, service, iunits, runits, last)
    ensures MayTerminate(j.i.value) <==> Outside(last)
    ensures TakesTerminate(j.r.value) <==> Outside(last)
    ensures !MayTerminate(j.r.value) && !TakesTerminate(j.i.value)
  {
    ReleasedOutside(last);
    hide PhaseAfter, Outside;
  }

  lemma ReleasedOutside(last: Option<Turn>)
    ensures PhaseAfter(last).Initialized? <==> Outside(last)
  {
  }

  /** A granted bulk-begin, any activities, and a bulk-end: the whole session runs, and leaves
      both ends as they were after F-INITIALIZE. */
  lemma SessionRuns(j: Assoc, q: G.Request, g: G.Reply, activities: seq<Activity>, q': G.Request, g': G.Reply)
    requires Both(j, R.Initialized) && forall a :: a in activities ==> Within(a, Shared(j))
    requires Fits(j.i.value.service, Shared(j), None, Ask(R.Begin, q)) && Responds(q.flags, g) && Granted(g)
    requires Fits(j.i.value.service, Shared(j), None, Ask(R.Finish, q')) && Responds(q'.flags, g')
    ensures var steps := StepsOf(GroupScript(R.Begin, q, g)) + ActivitiesSteps(activities)
                         + StepsOf(GroupScript(R.Finish, q', g'));
            Reaches(j, steps, R.Initialized)
  {
    var a, b, c := StepsOf(GroupScript(R.Begin, q, g)), ActivitiesSteps(activities),
                   StepsOf(GroupScript(R.Finish, q', g'));
    GroupRuns(j, R.Begin, q, g);
    RunConcat(j, a, b);
    RunConcat(j, a + b, c);
    hide Run, GroupScript, Both, Fits, Within;
    ActivitiesRun(Run(j, a).value, activities);
    GroupRuns(Run(j, a + b).value, R.Finish, q', g');
  }

  // ---------------------------------------------------------------- taking mirrors issuing

  /** An end takes exactly what its counterpart, an end of the other role at the same point,
      may issue there, and moves as the counterpart does; and once it waits for the end of a
      cancel it throws away what was sent before the cancel was known.  An F-CANCEL request
      is taken anywhere in a transfer; an end that has asked for one itself answers it. */
  lemma TakingMirrorsIssuing(e: R.End, pdu: R.Pdu)
    requires !Grouped(pdu)
    ensures var p := R.End(!e.init, e.state, false, e.units);
            var got := R.Receive(e, pdu);
            if pdu.CancelReq? then
              (got.Answered? <==> e.state.DataCancel?)
              && (got.Taken? <==> e.state in {R.DataRead, R.DataWrite, R.DataFin1, R.DataFin2})
              && (got.Taken? && !e.cancel ==> got.end == e.(state := R.DataCancel))
              && (got.Answered? ==> got.end == e.(state := R.DataIdle))
            else if pdu.CancelRsp? then
              !got.Answered? && (got.Taken? <==> R.Send(p, pdu).Some?)
              && (got.Taken? && e.cancel ==> got.end == e.(state := R.DataIdle, cancel := false))
            else
              !got.Answered?
              && (got.Taken? <==> Discards(e, pdu) || (R.Send(p, pdu).Some? && Equipped(e, pdu)))
              && (got.Taken? ==>
                    got.end == if e.state.DataCancel? then e else e.(state := R.Send(p, pdu).value.state))
  {
  }

  predicate Discards(e: R.End, pdu: R.Pdu) {
    e.state.DataCancel? && (pdu.Data? || pdu.DataEnd? || (pdu.TransferEndReq? && !e.init))
  }

  /** Responses to F-LOCATE and F-ERASE are for ends that hold the unit. */
  predicate Equipped(e: R.End, pdu: R.Pdu) {
    pdu.LocateRsp? || pdu.EraseRsp? ==> e.units.access
  }
}
