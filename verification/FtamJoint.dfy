/** The ideal regime: two FTAM ends with the same units, joined by reliable FIFO channels,
    where a grouped response means the same to both.  The invariant of every step, and what
    becomes of crossing F-CANCEL requests; FtamAssociation carries both over to ends that
    send real groups and may hold different units. */
module FtamJoint {
  import opened Options
  import opened FtamRegime

  /** The initiator i, the responder r, and what is under way in each direction; an end is
      gone once a protocol error has freed its block. */
  datatype Joint = Joint(i: Option<End>, r: Option<End>, ir: seq<Pdu>, ri: seq<Pdu>)

  datatype Step = ISend(m: Pdu) | RSend(m: Pdu) | IRecv | RRecv

  /** One step, None when it is not enabled. */
  function Next(j: Joint, s: Step): Option<Joint> {
    match s
    case ISend(m) =>
      if j.i.None? || Send(j.i.value, m).None? then None
      else Some(j.(i := Send(j.i.value, m), ir := j.ir + [m]))
    case RSend(m) =>
      if j.r.None? || Send(j.r.value, m).None? then None
      else Some(j.(r := Send(j.r.value, m), ri := j.ri + [m]))
    case IRecv =>
      if j.i.None? || j.ri == [] then None else Some(IGets(j, Receive(j.i.value, j.ri[0])))
    case RRecv =>
      if j.r.None? || j.ir == [] then None else Some(RGets(j, Receive(j.r.value, j.ir[0])))
  }

  function IGets(j: Joint, got: Received): Joint
    requires j.ri != []
  {
    match got
    case Taken(e) => j.(i := Some(e), ri := j.ri[1..])
    case Answered(e) => j.(i := Some(e), ri := j.ri[1..], ir := j.ir + [CancelRsp])
    case Lost => j.(i := None, ri := j.ri[1..])
  }

  function RGets(j: Joint, got: Received): Joint
    requires j.ir != []
  {
    match got
    case Taken(e) => j.(r := Some(e), ir := j.ir[1..])
    case Answered(e) => j.(r := Some(e), ir := j.ir[1..], ri := j.ri + [CancelRsp])
    case Lost => j.(r := None, ir := j.ir[1..])
  }

  /** Both ends have an F-CANCEL request under way. */
  predicate Crossing(j: Joint) {
    CancelReq in j.ir && CancelReq in j.ri
  }

  // ---------------------------------------------------------------- the invariant

  /** The end once it has taken everything under way to it; None if something is not taken. */
  function Drain(e: End, c: seq<Pdu>): (r: Option<End>)
    ensures r.Some? ==> r.value.init == e.init && r.value.units == e.units
    decreases |c|
  {
    if c == [] then Some(e)
    else match Receive(e, c[0])
      case Taken(f) => Drain(f, c[1..])
      case _ => None
  }

  /** The two ends are at the same point of the regime. */
  predicate Paired(i: End, r: End) {
    i.state == r.state
    && (if i.state.DataCancel? then i.cancel != r.cancel else !i.cancel && !r.cancel)
  }

  /** Everything in c is discarded by an end that has cancelled. */
  predicate Junk(c: seq<Pdu>) {
    forall k :: 0 <= k < |c| ==> c[k].Data? || c[k].DataEnd? || c[k].TransferEndReq?
  }

  predicate BulkJunk(c: seq<Pdu>) {
    forall k :: 0 <= k < |c| ==> c[k].Data? || c[k].DataEnd?
  }

  /** An F-CANCEL request is the last thing its sender put under way, and the sender is
      waiting for the answer exactly then. */
  predicate CancelLast(e: End, c: seq<Pdu>) {
    (forall k :: 0 <= k < |c| - 1 ==> !c[k].CancelReq?)
    && (c != [] && c[|c| - 1].CancelReq? ==> e.cancel)
    && (e.cancel ==> c == [] || c[|c| - 1].CancelReq?)
  }

  /** After F-TRANSFER-END the initiator says nothing but the answer to a cancel. */
  predicate EndLast(i: End, c: seq<Pdu>) {
    (forall k :: 0 <= k < |c| - 1 ==> c[k].TransferEndReq? ==> c[k + 1].CancelRsp?)
    && (c != [] && c[|c| - 1].TransferEndReq? ==> i.state.DataFin2? || (i.state.DataCancel? && !i.cancel))
  }

  /** All that reaches the responder is under way, and brings it level with the initiator. */
  predicate Down(i: End, r: End, ir: seq<Pdu>, ri: seq<Pdu>) {
    ri == [] && Drain(r, ir).Some? && Paired(i, Drain(r, ir).value)
  }

  predicate Up(i: End, r: End, ir: seq<Pdu>, ri: seq<Pdu>) {
    ir == [] && Drain(i, ri).Some? && Paired(Drain(i, ri).value, r)
  }

  /** The initiator's cancel meets data on its way up. */
  predicate CancelDown(i: End, r: End, ir: seq<Pdu>, ri: seq<Pdu>) {
    i.cancel && i.state.DataCancel? && ir == [CancelReq]
    && !r.cancel && (r.state.DataRead? || r.state.DataFin1?) && BulkJunk(ri)
  }

  /** The responder's cancel meets data on its way down. */
  predicate CancelUp(i: End, r: End, ir: seq<Pdu>, ri: seq<Pdu>) {
    !i.cancel && (i.state.DataWrite? || i.state.DataFin1? || i.state.DataFin2?)
    && ri == [CancelReq] && r.cancel && r.state.DataCancel? && Junk(ir)
  }

  predicate Level(i: End, r: End, ir: seq<Pdu>, ri: seq<Pdu>) {
    Down(i, r, ir, ri) || Up(i, r, ir, ri) || CancelDown(i, r, ir, ri) || CancelUp(i, r, ir, ri)
  }

  predicate Ordered(i: End, r: End, ir: seq<Pdu>, ri: seq<Pdu>) {
    i.init && !r.init && i.units == r.units
    && (i.cancel ==> i.state.DataCancel?) && (r.cancel ==> r.state.DataCancel?)
    && CancelLast(i, ir) && CancelLast(r, ri) && EndLast(i, ir)
    && (r.state.DataFin2? ==> ir == [] && ri == [] && i.state.DataFin2?)
    && (r.state.Locate? || r.state.Erase? ==> r.units.access)
  }

  predicate Inv(j: Joint) {
    j.i.Some? && j.r.Some?
    && Ordered(j.i.value, j.r.value, j.ir, j.ri)
    && Level(j.i.value, j.r.value, j.ir, j.ri)
  }

  // ---------------------------------------------------------------- draining

  lemma {:induction false} DrainAppend(e: End, c: seq<Pdu>, m: Pdu)
    ensures Drain(e, c + [m]) == if Drain(e, c).None? then None else Drain(Drain(e, c).value, [m])
    decreases |c|
  {
    if c == [] {
      assert c + [m] == [m];
    } else if Receive(e, c[0]).Taken? {
      DrainAppend(Receive(e, c[0]).end, c[1..], m);
      assert (c + [m])[1..] == c[1..] + [m];
    }
  }

  lemma DrainOne(e: End, m: Pdu)
    ensures Drain(e, [m]) == match Receive(e, m) case Taken(f) => Some(f) case _ => None
  {
    assert [m][1..] == [];
  }

  /** An end that has cancelled takes junk without moving. */
  lemma {:induction false} DrainJunk(e: End, c: seq<Pdu>)
    requires e.state.DataCancel? && (if e.init then BulkJunk(c) else Junk(c))
    ensures Drain(e, c) == Some(e)
  {
    if c != [] {
      DrainJunk(e, c[1..]);
    }
  }

  /** A responder taking data takes nothing but junk until a cancel comes. */
  lemma {:induction false} WritingTakesJunk(e: End, c: seq<Pdu>)
    requires !e.init && !e.cancel && (e.state.DataWrite? || e.state.DataFin1? || e.state.DataFin2?)
    requires Drain(e, c).Some? && CancelReq !in c
    ensures Junk(c)
    ensures var s := Drain(e, c).value.state; s.DataWrite? || s.DataFin1? || s.DataFin2?
    decreases |c|
  {
    if c != [] {
      assert c[0] in c;
      WritingTakesJunk(Receive(e, c[0]).end, c[1..]);
      assert c == [c[0]] + c[1..];
    }
  }

  lemma {:induction false} ReadingTakesData(e: End, c: seq<Pdu>)
    requires e.init && !e.cancel && (e.state.DataRead? || e.state.DataFin1?)
    requires Drain(e, c).Some? && CancelReq !in c
    ensures BulkJunk(c)
    ensures var f := Drain(e, c).value; !f.cancel && (f.state.DataRead? || f.state.DataFin1?)
    decreases |c|
  {
    if c != [] {
      assert c[0] in c;
      ReadingTakesData(Receive(e, c[0]).end, c[1..]);
      assert c == [c[0]] + c[1..];
    }
  }

  /** An end that is being cancelled stays so, and meets no second request. */
  lemma {:induction false} CancelledStays(e: End, c: seq<Pdu>)
    requires e.state.DataCancel? && !e.cancel && Drain(e, c).Some?
    ensures CancelReq !in c && Drain(e, c) == Some(e)
  {
    if c != [] {
      CancelledStays(e, c[1..]);
      assert c == [c[0]] + c[1..];
    }
  }

  // ---------------------------------------------------------------- each step keeps it

  lemma ISendKeepsOrder(i: End, r: End, ir: seq<Pdu>, ri: seq<Pdu>, m: Pdu)
    requires Ordered(i, r, ir, ri) && Level(i, r, ir, ri) && Send(i, m).Some?
    ensures Ordered(Send(i, m).value, r, ir + [m], ri)
  {
    var i' := Send(i, m).value;
    var c := ir + [m];
    assert forall k :: 0 <= k < |c| - 1 ==> c[k] == ir[k];
    assert c[|c| - 1] == m;
  }

  lemma ISendFromDown(i: End, r: End, ir: seq<Pdu>, ri: seq<Pdu>, m: Pdu)
    requires Ordered(i, r, ir, ri) && Down(i, r, ir, ri) && Send(i, m).Some?
    ensures Down(Send(i, m).value, r, ir + [m], ri)
  {
    DrainAppend(r, ir, m);
    DrainOne(Drain(r, ir).value, m);
  }

  lemma ISendFromUp(i: End, r: End, ir: seq<Pdu>, ri: seq<Pdu>, m: Pdu)
    requires Ordered(i, r, ir, ri) && Up(i, r, ir, ri) && ri != [] && Send(i, m).Some?
    requires !(CancelReq in ri && m.CancelReq?)
    ensures Level(Send(i, m).value, r, ir + [m], ri)
  {
    assert ir + [m] == [m];
    assert ri[0] in ri;
    if i.state.DataRead? {
      ReadingTakesData(i, ri);
    } else if i.state.DataCancel? {
      CancelledStays(i, ri);
    } else {
      assert ri[0].CancelReq?;
      assert ri == [CancelReq];
      DrainOne(i, CancelReq);
    }
  }

  lemma ISendKeeps(j: Joint, m: Pdu)
    requires Inv(j) && Next(j, ISend(m)).Some? && !Crossing(Next(j, ISend(m)).value)
    ensures Inv(Next(j, ISend(m)).value)
  {
    var i, r := j.i.value, j.r.value;
    ISendKeepsOrder(i, r, j.ir, j.ri, m);
    assert m.CancelReq? ==> (j.ir + [m])[|j.ir|] == CancelReq;
    if Down(i, r, j.ir, j.ri) {
      ISendFromDown(i, r, j.ir, j.ri, m);
    } else if Up(i, r, j.ir, j.ri) {
      ISendFromUp(i, r, j.ir, j.ri, m);
    } else if CancelUp(i, r, j.ir, j.ri) {
      assert CancelReq in j.ri;
    }
  }

  lemma RSendFromDown(i: End, r: End, ir: seq<Pdu>, ri: seq<Pdu>, m: Pdu)
    requires Ordered(i, r, ir, ri) && Down(i, r, ir, ri) && Send(r, m).Some?
    requires !(CancelReq in ir && m.CancelReq?)
    ensures Level(i, Send(r, m).value, ir, ri + [m])
  {
    var r' := Send(r, m).value;
    assert ri + [m] == [m];
    DrainOne(i, m);
    if r.state.DataWrite? {
      WritingTakesJunk(r, ir);
    } else if r.state.DataCancel? {
      CancelledStays(r, ir);
    } else if r.state.DataRead? && ir != [] {
      assert ir[0].CancelReq?;
      assert ir == [CancelReq];
      DrainOne(r, CancelReq);
    }
  }

  lemma RSendFromUp(i: End, r: End, ir: seq<Pdu>, ri: seq<Pdu>, m: Pdu)
    requires Ordered(i, r, ir, ri) && Up(i, r, ir, ri) && Send(r, m).Some?
    ensures Up(i, Send(r, m).value, ir, ri + [m])
  {
    DrainAppend(i, ri, m);
    DrainOne(Drain(i, ri).value, m);
  }

  lemma RSendKeeps(j: Joint, m: Pdu)
    requires Inv(j) && Next(j, RSend(m)).Some? && !Crossing(Next(j, RSend(m)).value)
    ensures Inv(Next(j, RSend(m)).value)
  {
    var i, r := j.i.value, j.r.value;
    var c := j.ri + [m];
    assert forall k :: 0 <= k < |c| - 1 ==> c[k] == j.ri[k];
    assert c[|c| - 1] == m;
    if Down(i, r, j.ir, j.ri) {
      RSendFromDown(i, r, j.ir, j.ri, m);
    } else if Up(i, r, j.ir, j.ri) {
      RSendFromUp(i, r, j.ir, j.ri, m);
    } else if CancelDown(i, r, j.ir, j.ri) {
      assert CancelReq in j.ir;
    }
  }

  lemma RRecvKeeps(j: Joint)
    requires Inv(j) && Next(j, RRecv).Some?
    ensures Receive(j.r.value, j.ir[0]).Taken?
    ensures Inv(Next(j, RRecv).value)
  {
    var i, r := j.i.value, j.r.value;
    var c := j.ir[1..];
    assert forall k :: 0 <= k < |c| ==> c[k] == j.ir[k + 1];
    if CancelDown(i, r, j.ir, j.ri) {
      DrainJunk(i, j.ri);
      assert c == [];
    } else if CancelUp(i, r, j.ir, j.ri) {
      assert Junk(c);
    } else {
      assert Down(i, r, j.ir, j.ri);
      if j.ir[0].TransferEndReq? && r.state.DataFin1? {
        TransferEndAlone(i, r, j.ir);
      }
    }
  }

  lemma TransferEndAlone(i: End, r: End, ir: seq<Pdu>)
    requires EndLast(i, ir) && ir != [] && ir[0].TransferEndReq? && !r.init && r.state.DataFin1?
    requires Drain(r, ir).Some?
    ensures ir == [TransferEndReq] && Drain(r, ir).value.state.DataFin2?
  {
    var c := ir[1..];
    assert Drain(r.(state := DataFin2), c).Some?;
  }

  lemma IRecvKeeps(j: Joint)
    requires Inv(j) && Next(j, IRecv).Some?
    ensures Receive(j.i.value, j.ri[0]).Taken?
    ensures Inv(Next(j, IRecv).value)
  {
    var i, r := j.i.value, j.r.value;
    var c := j.ri[1..];
    assert forall k :: 0 <= k < |c| ==> c[k] == j.ri[k + 1];
    if CancelUp(i, r, j.ir, j.ri) {
      DrainJunk(r, j.ir);
      assert c == [];
    } else if CancelDown(i, r, j.ir, j.ri) {
      assert BulkJunk(c);
    } else {
      assert Up(i, r, j.ir, j.ri);
    }
  }

  lemma StepKeeps(j: Joint, s: Step)
    requires Inv(j) && Next(j, s).Some? && !Crossing(Next(j, s).value)
    ensures Inv(Next(j, s).value)
  {
    match s
    case ISend(m) => ISendKeeps(j, m);
    case RSend(m) => RSendKeeps(j, m);
    case IRecv => IRecvKeeps(j);
    case RRecv => RRecvKeeps(j);
  }

  lemma OneSender(j: Joint)
    requires Inv(j)
    ensures !(Send(j.i.value, Data).Some? && Send(j.r.value, Data).Some?)
  {
    var i, r := j.i.value, j.r.value;
    if r.state.DataRead? && Down(i, r, j.ir, j.ri) && j.ir != [] {
      CancelledStays(Receive(r, j.ir[0]).end, j.ir[1..]);
    } else if i.state.DataWrite? && Up(i, r, j.ir, j.ri) && j.ri != [] {
      CancelledStays(Receive(i, j.ri[0]).end, j.ri[1..]);
    }
  }

  // ---------------------------------------------------------------- the end of the association

  /** Nothing the initiator sends brings the responder back to the initialized state. */
  lemma {:induction false} DrainLeaves(e: End, c: seq<Pdu>)
    requires !e.init && c != [] && Drain(e, c).Some?
    ensures !Drain(e, c).value.state.Initialized?
    decreases |c|
  {
    var f := Receive(e, c[0]).end;
    assert !f.init && !f.state.Initialized?;
    if |c| > 1 {
      DrainLeaves(f, c[1..]);
    }
  }

  lemma QuietWhenInitialized(i: End, r: End, ir: seq<Pdu>, ri: seq<Pdu>)
    requires i.init && !r.init && Level(i, r, ir, ri)
    ensures i.state.Initialized? ==> ir == [] && ri == [] && r.state.Initialized?
  {
    if Down(i, r, ir, ri) && ir != [] {
      DrainLeaves(r, ir);
    }
  }

  /** A responder that owes a grouped response has the initiator waiting for it, and nothing
      is under way. */
  lemma WaitingTogether(i: End, r: End, ir: seq<Pdu>, ri: seq<Pdu>)
    requires i.init && !r.init && Level(i, r, ir, ri)
    ensures r.state.Management? || r.state.BulkBegin? || r.state.BulkEnd?
            ==> ir == [] && ri == [] && i.state == r.state
  {
    if Up(i, r, ir, ri) && ri != [] {
      DrainFrees(i, ri);
    }
  }

  /** Nothing the responder sends leaves the initiator waiting for a grouped response. */
  lemma {:induction false} DrainFrees(e: End, c: seq<Pdu>)
    requires e.init && c != [] && Drain(e, c).Some?
    ensures var s := Drain(e, c).value.state; !s.Management? && !s.BulkBegin? && !s.BulkEnd?
    decreases |c|
  {
    var f := Receive(e, c[0]).end;
    assert f.init && !f.state.Management? && !f.state.BulkBegin? && !f.state.BulkEnd?;
    if |c| > 1 {
      DrainFrees(f, c[1..]);
    }
  }

  // ---------------------------------------------------------------- the responder's log

  datatype Event = Sent(m: Pdu) | Got(m: Pdu)

  /** The latest transfer in a log: asked for by the initiator, or ended by F-DATA-END. */
  datatype Transfer = NoTransfer | Asked(reading: bool) | Ended(reading: bool, byResponder: bool)

  function Mark(was: Transfer, event: Event): Transfer {
    match event
    case Got(ReadReq) => Asked(true)
    case Got(WriteReq) => Asked(false)
    case Got(DataEnd) => if was.Asked? then Ended(was.reading, false) else was
    case Sent(DataEnd) => if was.Asked? then Ended(was.reading, true) else was
    case _ => was
  }

  function Latest(log: seq<Event>): Transfer {
    if log == [] then NoTransfer else Mark(Latest(log[..|log| - 1]), log[|log| - 1])
  }

  predicate InStep(r: End, latest: Transfer) {
    !r.init
    && (r.state.DataRead? ==> latest == Asked(true))
    && (r.state.DataWrite? ==> latest == Asked(false))
    && (r.state.DataFin1? || r.state.DataFin2? ==> latest.Ended? && latest.byResponder == latest.reading)
  }

  lemma EventInStep(r: End, latest: Transfer, m: Pdu)
    requires InStep(r, latest)
    ensures Send(r, m).Some? ==> InStep(Send(r, m).value, Mark(latest, Sent(m)))
    ensures !Receive(r, m).Lost? ==> InStep(Receive(r, m).end, Mark(latest, Got(m)))
  {
  }

  // ---------------------------------------------------------------- crossing cancels

  /** One side of a collision: the end still owes the peer's request an answer, or has
      answered and waits in DataIdle; `answered` tells whether the peer has answered. */
  ghost predicate Colliding(e: End, c: seq<Pdu>, answered: bool) {
    e.cancel
    && if e.state.DataCancel?
       then exists junk :: (if e.init then BulkJunk(junk) else Junk(junk))
                           && c == junk + [CancelReq] + (if answered then [CancelRsp] else [])
       else e.state.DataIdle? && c == if answered then [CancelRsp] else []
  }

  ghost predicate Collision(j: Joint) {
    j.i.Some? && j.r.Some? && j.i.value.init && !j.r.value.init
    && Colliding(j.i.value, j.ri, j.r.value.state.DataIdle?)
    && Colliding(j.r.value, j.ir, j.i.value.state.DataIdle?)
  }

  lemma JunkThenCancel(e: End, junk: seq<Pdu>)
    requires e.cancel && e.state.DataCancel? && (if e.init then BulkJunk(junk) else Junk(junk))
    ensures Colliding(e, junk + [CancelReq], false)
  {
    assert junk + [CancelReq] == junk + [CancelReq] + [];
  }

  lemma ICrossing(j: Joint)
    requires Inv(j) && Next(j, ISend(CancelReq)).Some? && CancelReq in j.ri
    ensures Collision(Next(j, ISend(CancelReq)).value)
  {
    var i, r := j.i.value, j.r.value;
    var i' := Send(i, CancelReq).value;
    if Up(i, r, j.ir, j.ri) {
      UpCollides(i, r, j.ri);
      assert j.ir + [CancelReq] == [] + [CancelReq];
      JunkThenCancel(r, []);
      JunkThenCancel(i', j.ri[..|j.ri| - 1]);
    } else {
      assert CancelUp(i, r, j.ir, j.ri);
      assert j.ri == [] + [CancelReq];
      JunkThenCancel(i', []);
      JunkThenCancel(r, j.ir);
    }
  }

  lemma RCrossing(j: Joint)
    requires Inv(j) && Next(j, RSend(CancelReq)).Some? && CancelReq in j.ir
    ensures Collision(Next(j, RSend(CancelReq)).value)
  {
    var i, r := j.i.value, j.r.value;
    var r' := Send(r, CancelReq).value;
    if Down(i, r, j.ir, j.ri) {
      DownCollides(i, r, j.ir);
      assert j.ri + [CancelReq] == [] + [CancelReq];
      JunkThenCancel(i, []);
      JunkThenCancel(r', j.ir[..|j.ir| - 1]);
    } else {
      assert CancelDown(i, r, j.ir, j.ri);
      assert j.ir == [] + [CancelReq];
      JunkThenCancel(r', []);
      JunkThenCancel(i, j.ri);
    }
  }

  /** A crossing is a collision. */
  lemma CrossingCollides(j: Joint, s: Step)
    requires Inv(j) && Next(j, s).Some? && Crossing(Next(j, s).value) && !Crossing(j)
    ensures Collision(Next(j, s).value)
  {
    match s {
      case ISend(m) =>
        assert m.CancelReq?;
        ICrossing(j);
      case RSend(m) =>
        assert m.CancelReq?;
        RCrossing(j);
      case IRecv =>
        IRecvKeeps(j);
      case RRecv =>
        RRecvKeeps(j);
    }
  }

  lemma CancelAtEnd(e: End, c: seq<Pdu>)
    requires CancelLast(e, c) && CancelReq in c
    ensures c == c[..|c| - 1] + [CancelReq] && CancelReq !in c[..|c| - 1] && e.cancel
  {
    var junk := c[..|c| - 1];
    assert c == junk + [c[|c| - 1]];
  }

  /** Up with a cancel on its way: data, then the request, from a responder that waits. */
  lemma UpCollides(i: End, r: End, ri: seq<Pdu>)
    requires i.init && !i.cancel && CancelLast(r, ri) && CancelReq in ri
    requires i.state.DataRead? || i.state.DataWrite?
    requires Drain(i, ri).Some? && Paired(Drain(i, ri).value, r)
    ensures ri == ri[..|ri| - 1] + [CancelReq] && BulkJunk(ri[..|ri| - 1])
    ensures r.cancel && r.state.DataCancel?
  {
    hide CancelLast;
    var junk := ri[..|ri| - 1];
    CancelAtEnd(r, ri);
    DrainAppend(i, junk, CancelReq);
    if i.state.DataRead? {
      ReadingTakesData(i, junk);
    }
  }

  lemma DownCollides(i: End, r: End, ir: seq<Pdu>)
    requires !r.init && !r.cancel && CancelLast(i, ir) && CancelReq in ir
    requires r.state.DataRead? || r.state.DataWrite?
    requires Drain(r, ir).Some? && Paired(i, Drain(r, ir).value)
    ensures ir == ir[..|ir| - 1] + [CancelReq] && Junk(ir[..|ir| - 1])
    ensures i.cancel && i.state.DataCancel?
  {
    hide CancelLast;
    var junk := ir[..|ir| - 1];
    CancelAtEnd(i, ir);
    DrainAppend(r, junk, CancelReq);
    if r.state.DataWrite? {
      WritingTakesJunk(r, junk);
    }
  }

  /** One side takes junk, answers the request, or is lost by the answer. */
  lemma SideTakes(e: End, c: seq<Pdu>, answered: bool)
    requires Colliding(e, c, answered) && c != []
    ensures match Receive(e, c[0])
            case Taken(f) => f == e && e.state.DataCancel? && Colliding(e, c[1..], answered)
            case Answered(f) => f == e.(state := DataIdle) && e.state.DataCancel? && Colliding(f, c[1..], answered)
            case Lost => true
  {
    if e.state.DataCancel? {
      var tail := if answered then [CancelRsp] else [];
      var junk :| (if e.init then BulkJunk(junk) else Junk(junk)) && c == junk + [CancelReq] + tail;
      if junk != [] {
        var rest := junk[1..];
        assert c[1..] == rest + [CancelReq] + tail;
        assert if e.init then BulkJunk(rest) else Junk(rest);
      } else {
        assert c[1..] == tail;
      }
    }
  }

  lemma ICollides(j: Joint)
    requires Collision(j) && j.ri != []
    ensures var k := Next(j, IRecv).value; k.i.None? || Collision(k)
  {
    hide Colliding, Receive;
    var i, r := j.i.value, j.r.value;
    SideTakes(i, j.ri, r.state.DataIdle?);
    if i.state.DataCancel? {
      AnswerAppended(r, j.ir);
    }
  }

  lemma RCollides(j: Joint)
    requires Collision(j) && j.ir != []
    ensures var k := Next(j, RRecv).value; k.r.None? || Collision(k)
  {
    hide Colliding, Receive;
    var i, r := j.i.value, j.r.value;
    SideTakes(r, j.ir, i.state.DataIdle?);
    if r.state.DataCancel? {
      AnswerAppended(i, j.ri);
    }
  }

  /** While neither end is gone a collision stays one and gets lighter with every step:
      nobody may send anything, and there is always something under way to an end that will
      take it or be lost by it. */
  lemma CollisionStep(j: Joint, s: Step)
    requires Collision(j) && Next(j, s).Some?
    ensures s.IRecv? || s.RRecv?
    ensures var k := Next(j, s).value; k.i.None? || k.r.None? || (Collision(k) && Weight(k) < Weight(j))
  {
    if s.IRecv? {
      ICollides(j);
    } else if s.RRecv? {
      RCollides(j);
    }
  }

  lemma AnswerAppended(e: End, c: seq<Pdu>)
    requires Colliding(e, c, false)
    ensures Colliding(e, c + [CancelRsp], true)
  {
    if e.state.DataCancel? {
      var junk :| (if e.init then BulkJunk(junk) else Junk(junk)) && c == junk + [CancelReq] + [];
      assert c + [CancelRsp] == junk + [CancelReq] + [CancelRsp];
    } else {
      assert c + [CancelRsp] == [CancelRsp];
    }
  }

  function Weight(j: Joint): nat {
    |j.ir| + |j.ri| + Owing(j.i) + Owing(j.r)
  }

  function Owing(e: Option<End>): nat {
    if e.Some? && e.value.state.DataCancel? then 1 else 0
  }
}
