/** struct ftamblk as the primitives and the indication side change it (ftam/ftambulk.c,
    ftambulk1.c, ftambulk2.c, ftamaccess1.c, ftamaccess2.c, ftamgroup1.c, ftamgroup2.c, and
    doPSdata in ftam/ftamprovider.c), and a driver that runs two blocks against each other. */
module FtamBlocks {
  import opened Options
  import opened FtamRegime
  import opened FtamAssociation
  import D = FtamDialogue
  import G = FtamGroups
  import N = FtamNegotiation

  /** What becomes of a block that gets a PDU: it goes on, it goes on and an
      F-CANCEL-response goes out, or it is freed. */
  datatype Outcome = Kept | KeptAndAnswered | Freed

  class FtamBlock {
    const init: bool
    const service: N.Class
    const units: set<N.Unit>
    var state: Phase
    var cancel: bool
    var group: set<G.Flag>

    constructor (init: bool, service: N.Class, units: set<N.Unit>)
      ensures View() == Peer(init, Initialized, false, service, units, {})
    {
      this.init, this.service, this.units := init, service, units;
      state, cancel, group := Initialized, false, {};
    }

    function View(): Peer
      reads this
    {
      Peer(init, state, cancel, service, units, group)
    }

    /** The state after m was issued, or the old one when it was refused. */
    twostate predicate Issued(m: Msg, ok: bool)
      reads this
    {
      var sent := FtamAssociation.Send(old(View()), m);
      ok == sent.Some? && View() == if ok then sent.value else old(View())
    }

    // -------------------------------------------------------------- requests and responses

    /** FDataRequestAux, and FDataEndRequestAux when `ending`. */
    method DataRequest(ending: bool) returns (ok: bool)
      requires !cancel
      modifies this`state
      ensures Issued(Single(if ending then DataEnd else Data), ok)
    {
      match state {
        case DataRead => ok := !init;
        case DataWrite => ok := init;
        case _ => ok := false;
      }
      if ok && ending {
        state := DataFin1;
      }
    }

    /** FCancelRequestAux, up to the wait for the answer. */
    method CancelRequest() returns (ok: bool)
      requires !cancel
      modifies this`state, this`cancel
      ensures Issued(Single(CancelReq), ok)
    {
      ok := state.DataRead? || state.DataWrite?;
      if ok {
        cancel := true;
        state := DataCancel;
      }
    }

    /** FCancelResponseAux, which the indication side calls too, to settle a collision. */
    method CancelResponse() returns (ok: bool)
      modifies this`state
      ensures ok == old(state).DataCancel?
      ensures View() == if ok then old(View()).(state := DataIdle) else old(View())
    {
      ok := state.DataCancel?;
      if ok {
        state := DataIdle;
      }
    }

    /** FReadWriteRequestAux. */
    method ReadWriteRequest(reading: bool) returns (ok: bool)
      requires !cancel
      modifies this`state
      ensures Issued(Single(if reading then ReadReq else WriteReq), ok)
    {
      if !init || !state.DataIdle? || (if reading then N.Read else N.Write) !in units {
        return false;
      }
      state := if reading then DataRead else DataWrite;
      ok := true;
    }

    /** FTransEndRequestAux, and FTransEndResponseAux when `response`. */
    method TransferEnd(response: bool) returns (ok: bool)
      requires !cancel
      modifies this`state
      ensures Issued(Single(if response then TransferEndRsp else TransferEndReq), ok)
    {
      if response {
        ok := !init && state.DataFin2?;
      } else {
        ok := init && state.DataFin1?;
      }
      if ok {
        state := if response then DataIdle else DataFin2;
      }
    }

    /** FAccessRequestAux. */
    method AccessRequest(erasing: bool) returns (ok: bool)
      requires !cancel
      modifies this`state
      ensures Issued(Single(if erasing then EraseReq else LocateReq), ok)
    {
      if !init || !state.DataIdle? || N.FileAccess !in units {
        return false;
      }
      state := if erasing then Erase else Locate;
      ok := true;
    }

    /** FAccessResponseAux for the operation in progress. */
    method AccessResponse(erasing: bool) returns (ok: bool)
      requires !cancel
      modifies this`state
      ensures Issued(Single(if erasing then EraseRsp else LocateRsp), ok)
    {
      ok := !init && (if erasing then state.Erase? else state.Locate?);
      if ok {
        state := DataIdle;
      }
    }

    /** FGroupRequestAux behind figrpchk. */
    method GroupRequest(kind: Group, q: G.Request) returns (ok: bool)
      requires !cancel
      modifies this`state, this`group
      ensures Issued(Ask(kind, q), ok)
    {
      if !G.RequestOk(Plain(View(), units), service, units, q, kind) {
        return false;
      }
      state := match kind case Manage => Management case Begin => BulkBegin case Finish => BulkEnd;
      group := q.flags;
      ok := true;
    }

    /** FGroupResponseAux behind frgrpchk. */
    method GroupResponse(kind: Group, g: G.Reply) returns (ok: bool)
      requires !cancel
      modifies this`state
      ensures Issued(Reply(kind, g), ok)
    {
      if init || state != G.Waiting(kind) || !(g.flags <= group) || !(G.Parts(g.flags) <= g.sound) {
        return false;
      }
      state := if kind.Begin? && g.headOk && g.openOk then DataIdle else Initialized;
      ok := true;
    }

    /** The primitive that issues m; an end inside FWaitRequestAux issues none. */
    method Issue(m: Msg) returns (ok: bool)
      modifies this
      ensures Issued(m, ok)
    {
      if cancel {
        return false;
      }
      match m {
        case Ask(kind, q) => ok := GroupRequest(kind, q);
        case Reply(kind, g) => ok := GroupResponse(kind, g);
        case Single(pdu) =>
          match pdu {
            case Data => ok := DataRequest(false);
            case DataEnd => ok := DataRequest(true);
            case CancelReq => ok := CancelRequest();
            case CancelRsp => ok := CancelResponse();
            case ReadReq => ok := ReadWriteRequest(true);
            case WriteReq => ok := ReadWriteRequest(false);
            case TransferEndReq => ok := TransferEnd(false);
            case TransferEndRsp => ok := TransferEnd(true);
            case LocateReq => ok := AccessRequest(false);
            case EraseReq => ok := AccessRequest(true);
            case LocateRsp => ok := AccessResponse(false);
            case EraseRsp => ok := AccessResponse(true);
            case _ => ok := false;
          }
      }
    }
  
    // -------------------------------------------------------------- indications

    /** The block after m arrived, unless it was freed. */
    twostate predicate Arrived(m: Msg, out: Outcome)
      reads this
    {
      match FtamAssociation.Receive(old(View()), m)
      case Takes(p) => out.Kept? && View() == p
      case Settles(p) => out.KeptAndAnswered? && View() == p
      case Loses => out.Freed?
    }

    /** F-CANCEL request and response, with the flags FSB_CANCEL and FSB_COLLIDE. */
    method CancelIndication(request: bool) returns (out: Outcome)
      modifies this`state, this`cancel
      ensures Arrived(Single(if request then CancelReq else CancelRsp), out)
    {
      var collide := false;
      if request {
        match state {
          case DataRead | DataWrite | DataFin1 | DataFin2 =>
          case DataCancel => collide := true;
          case _ => return Freed;
        }
      } else if !state.DataCancel? {
        return Freed;
      }
      if collide {
        var answered := CancelResponse();
        return KeptAndAnswered;
      }
      state := if cancel then DataIdle else DataCancel;
      cancel := false;
      out := Kept;
    }

    /** FADUs, F-DATA-END and F-TRANSFER-END. */
    method DataIndication(pdu: Pdu) returns (out: Outcome)
      requires pdu.Data? || pdu.DataEnd? || pdu.TransferEndReq? || pdu.TransferEndRsp?
      modifies this`state
      ensures Arrived(Single(pdu), out)
    {
      var getter := (state.DataRead? && init) || (state.DataWrite? && !init);
      out := Freed;
      if pdu.Data? || pdu.DataEnd? {
        if state.DataCancel? || getter {
          state := if getter && pdu.DataEnd? then DataFin1 else state;
          out := Kept;
        }
      } else if pdu.TransferEndReq? {
        if !init && (state.DataCancel? || state.DataFin1?) {
          state := if state.DataFin1? then DataFin2 else state;
          out := Kept;
        }
      } else if init && state.DataFin2? {
        state := DataIdle;
        out := Kept;
      }
    }

    /** F-READ, F-WRITE, F-LOCATE and F-ERASE: requests at the responder, responses to the
        last two at the initiator. */
    method AccessIndication(pdu: Pdu) returns (out: Outcome)
      requires pdu.ReadReq? || pdu.WriteReq? || pdu.LocateReq? || pdu.EraseReq? || pdu.LocateRsp? || pdu.EraseRsp?
      modifies this`state
      ensures Arrived(Single(pdu), out)
    {
      var needed := match pdu case ReadReq => N.Read case WriteReq => N.Write case _ => N.FileAccess;
      if needed !in units {
        return Freed;
      }
      if pdu.LocateRsp? || pdu.EraseRsp? {
        if !init || !(if pdu.LocateRsp? then state.Locate? else state.Erase?) {
          return Freed;
        }
        state := DataIdle;
      } else {
        if init || !state.DataIdle? {
          return Freed;
        }
        state := match pdu case ReadReq => DataRead case WriteReq => DataWrite case LocateReq => Locate case _ => Erase;
      }
      out := Kept;
    }

    /** A grouped request: the PDUs are scanned, the threshold compared, the kind found and
        the class and state checked. */
    method GroupIndication(kind: Group, q: G.Request) returns (out: Outcome)
      modifies this`state, this`group
      ensures Arrived(Ask(kind, q), out)
    {
      hide G.Emit, G.Scanned, FtamRegime.Receive;
      GroupTaken(View());
      var pdus := G.FillPdus(q.flags);
      var flags := G.ScanLoop(pdus, false, units);
      if flags.None? || q.threshold != |pdus| - 2 {
        return Freed;
      }
      var found := G.Classify(flags.value);
      if found.None? || !G.ClassAllows(service, found.value) {
        return Freed;
      }
      if init || state != (if found.value.Finish? then DataIdle else Initialized) {
        return Freed;
      }
      state := G.Waiting(found.value);
      group := flags.value;
      out := Kept;
    }

    /** A grouped response: the initiator goes by what is in the PDUs, where an F-OPEN that
        is not there counts as a success. */
    method GroupConfirmation(kind: Group, g: G.Reply) returns (out: Outcome)
      modifies this`state
      ensures Arrived(Reply(kind, g), out)
    {
      hide G.Emit, G.Scanned, G.Cut;
      if !init {
        return Freed;
      }
      var pdus := G.FillPdus(G.Cut(g));
      var flags := G.ScanLoop(pdus, true, units);
      if flags.None? || !(flags.value <= group) {
        return Freed;
      }
      if G.FSelect in flags.value || G.FCreate in flags.value {
        if state.Management? {
          state := Initialized;
        } else if state.BulkBegin? {
          var openOk := G.FOpen !in flags.value || g.openOk;
          state := if g.headOk && openOk then DataIdle else Initialized;
        } else {
          return Freed;
        }
      } else {
        if G.FClose !in flags.value || !G.ClassAllows(service, Finish) || !state.BulkEnd? {
          return Freed;
        }
        state := Initialized;
      }
      out := Kept;
    }

    /** doPSdata. */
    method Indicate(m: Msg) returns (out: Outcome)
      modifies this
      ensures Arrived(m, out)
    {
      match m {
        case Ask(kind, q) => out := GroupIndication(kind, q);
        case Reply(kind, g) => out := GroupConfirmation(kind, g);
        case Single(pdu) =>
          match pdu {
            case GroupReq(_) => out := Freed;
            case GroupRsp(_, _) => out := Freed;
            case CancelReq => out := CancelIndication(true);
            case CancelRsp => out := CancelIndication(false);
            case Data => out := DataIndication(pdu);
            case DataEnd => out := DataIndication(pdu);
            case TransferEndReq => out := DataIndication(pdu);
            case TransferEndRsp => out := DataIndication(pdu);
            case _ => out := AccessIndication(pdu);
          }
      }
    }
  }

  lemma GroupTaken(p: Peer)
    ensures forall kind :: FtamRegime.Receive(Plain(p, p.units), GroupReq(kind)).Taken?
                           <==> !p.init && p.state == (if kind.Finish? then DataIdle else Initialized)
  {
  }

  // ---------------------------------------------------------------- two blocks

  function Alive(b: FtamBlock, gone: bool): Option<Peer>
    reads b
  {
    if gone then None else Some(b.View())
  }

  /** Two blocks and two queues, driven through a schedule: they end where Run says, or the
      schedule asks for something that is not enabled. */
  method Drive(i: FtamBlock, r: FtamBlock, steps: seq<Step>)
    returns (ok: bool, igone: bool, rgone: bool, ir: seq<Msg>, ri: seq<Msg>)
    requires i != r
    modifies i, r
    ensures ok == Run(Assoc(Some(old(i.View())), Some(old(r.View())), [], []), steps).Some?
    ensures ok ==> Run(Assoc(Some(old(i.View())), Some(old(r.View())), [], []), steps)
                   == Some(Assoc(Alive(i, igone), Alive(r, rgone), ir, ri))
  {
    hide FtamAssociation.Send, FtamAssociation.Receive;
    igone, rgone, ir, ri := false, false, [], [];
    ghost var start := Assoc(Some(i.View()), Some(r.View()), [], []);
    for k := 0 to |steps|
      invariant Run(start, steps[..k])
             == Some(Assoc(Alive(i, igone), Alive(r, rgone), ir, ri))
    {
      assert steps[..k + 1][..k] == steps[..k];
      ok := true;
      match steps[k] {
        case ISend(m) =>
          if igone {
            ok := false;
          } else {
            ok := i.Issue(m);
            ir := ir + [m];
          }
        case RSend(m) =>
          if rgone {
            ok := false;
          } else {
            ok := r.Issue(m);
            ri := ri + [m];
          }
        case IRecv =>
          if igone || ri == [] {
            ok := false;
          } else {
            var out := i.Indicate(ri[0]);
            ri := ri[1..];
            igone := out.Freed?;
            ir := if out.KeptAndAnswered? then ir + [Single(CancelRsp)] else ir;
          }
        case RRecv =>
          if rgone || ir == [] {
            ok := false;
          } else {
            var out := r.Indicate(ir[0]);
            ir := ir[1..];
            rgone := out.Freed?;
            ri := if out.KeptAndAnswered? then ri + [Single(CancelRsp)] else ri;
          }
      }
      if !ok {
        RefusedStays(start, steps, k + 1);
        return;
      }
    }
    assert steps[..|steps|] == steps;
    ok := true;
  }

  lemma {:induction false} RefusedStays(j: Assoc, steps: seq<Step>, k: nat)
    requires k <= |steps| && Run(j, steps[..k]).None?
    ensures Run(j, steps).None?
    decreases |steps| - k
  {
    if k == |steps| {
      assert steps[..k] == steps;
    } else {
      assert steps[..k + 1][..k] == steps[..k];
      RefusedStays(j, steps, k + 1);
    }
  }

  /** What Safety means for the blocks: over a clean schedule neither is freed, and with
      empty queues they are in the same state. */
  method DriveClean(service: N.Class, iunits: set<N.Unit>, runits: set<N.Unit>, steps: seq<Step>)
    returns (i: FtamBlock, r: FtamBlock, igone: bool, rgone: bool, ir: seq<Msg>, ri: seq<Msg>)
    requires runits <= iunits && Clean(Start(service, iunits, runits), steps)
    ensures !igone && !rgone && (ir == [] && ri == [] ==> i.state == r.state)
  {
    i := new FtamBlock(true, service, iunits);
    r := new FtamBlock(false, service, runits);
    var ok;
    ok, igone, rgone, ir, ri := Drive(i, r, steps);
    Safety(service, iunits, runits, steps);
  }

  /** Two blocks in the data regime carry out any activity the units of both are for, however
      many F-DATA it takes, and are in the data regime again. */
  method DriveActivity(i: FtamBlock, r: FtamBlock, a: D.Activity)
    requires i != r && i.init && !r.init && i.service == r.service && D.Within(a, i.units * r.units)
    requires i.state.DataIdle? && r.state.DataIdle? && !i.cancel && !r.cancel
    modifies i, r
    ensures i.state.DataIdle? && r.state.DataIdle? && !i.cancel && !r.cancel
  {
    D.ActivityRuns(Assoc(Some(i.View()), Some(r.View()), [], []), a);
    hide D.Within, D.Script, Run;
    var ok, igone, rgone, ir, ri := Drive(i, r, D.StepsOf(D.Script(a)));
  }

  /** Two blocks after F-INITIALIZE carry out a whole session: a granted bulk-begin, any
      activities, and a bulk-end. */
  method DriveSession(i: FtamBlock, r: FtamBlock, q: G.Request, g: G.Reply, activities: seq<D.Activity>,
                      q': G.Request, g': G.Reply)
    requires i != r && i.init && !r.init && i.service == r.service && !i.cancel && !r.cancel
    requires i.state.Initialized? && r.state.Initialized?
    requires forall a :: a in activities ==> D.Within(a, i.units * r.units)
    requires D.Fits(i.service, i.units * r.units, None, Ask(Begin, q)) && D.Responds(q.flags, g) && D.Granted(g)
    requires D.Fits(i.service, i.units * r.units, None, Ask(Finish, q')) && D.Responds(q'.flags, g')
    modifies i, r
    ensures i.state.Initialized? && r.state.Initialized? && !i.cancel && !r.cancel
  {
    D.SessionRuns(Assoc(Some(i.View()), Some(r.View()), [], []), q, g, activities, q', g');
    hide D.Within, D.Fits, D.Responds, Run, D.StepsOf, D.ActivitiesSteps;
    var ok, igone, rgone, ir, ri :=
      Drive(i, r, D.StepsOf(D.GroupScript(Begin, q, g)) + D.ActivitiesSteps(activities)
                  + D.StepsOf(D.GroupScript(Finish, q', g')));
  }
}
