/** Grouped FTAM requests and responses: the initiator's checks and PDUs (figrpchk and
    figrp2pdus in ftam/ftamgroup1.c), the responder's (frgrpchk and frgrp2pdus in
    ftam/ftamgroup2.c), and the automaton that takes the PDUs at the other end
    (doPSdata in ftam/ftamprovider.c). */
module FtamGroups {
  import opened Options
  import opened FtamRegime
  import opened FtamNegotiation

  /** FTG_BEGIN and its companions (h/ftam.h); also the kinds of PDU in a group. */
  datatype Flag = FBegin | FSelect | FCreate | FClose | FRdattr | FChattr | FDeselect | FDelete | FOpen | FEnd

  /** struct FTAMgroup of a request: `sound` holds the parts whose own parameters (attributes,
      passwords, concurrency control, diagnostics) pass their checks. */
  datatype Request = Request(flags: set<Flag>, threshold: int, sound: set<Flag>)

  /** The parts figrpchk counts. */
  function Parts(flags: set<Flag>): set<Flag> {
    flags - {FBegin, FEnd}
  }

  function One(b: bool): nat {
    if b then 1 else 0
  }

  /** The counter of figrpchk. */
  function Counted(flags: set<Flag>): nat {
    One(FSelect in flags || FCreate in flags) + One(FClose in flags) + One(FRdattr in flags) + One(FChattr in flags)
    + One(FDeselect in flags) + One(FDelete in flags) + One(FOpen in flags)
  }

  predicate ExactlyOne(flags: set<Flag>, f: Flag, g: Flag) {
    f in flags <==> g !in flags
  }

  /** Which groups a class allows: figrpchk at the initiator, doPSdata at the responder. */
  predicate ClassAllows(service: Class, kind: Group) {
    match service
    case Transferring => !kind.Manage?
    case Managing => kind.Manage?
    case TransferManage => true
    case Accessing => true
    case Unconstrained => false
  }

  /** The shape figrpchk demands of each kind of group. */
  predicate Shape(flags: set<Flag>, kind: Group) {
    FBegin in flags && FEnd in flags
    && match kind
       case Manage =>
         ExactlyOne(flags, FSelect, FCreate) && FOpen !in flags && FClose !in flags
         && ExactlyOne(flags, FDeselect, FDelete)
       case Begin =>
         ExactlyOne(flags, FSelect, FCreate) && FOpen in flags
         && FClose !in flags && FDeselect !in flags && FDelete !in flags
       case Finish =>
         FSelect !in flags && FCreate !in flags && FOpen !in flags && FClose in flags
         && ExactlyOne(flags, FDeselect, FDelete)
  }

  predicate UnitsAllow(units: set<Unit>, flags: set<Flag>) {
    Grouping in units
    && (FCreate in flags || FRdattr in flags || FDelete in flags ==> Limited in units)
    && (FChattr in flags ==> Enhanced in units)
  }

  /** figrpchk. */
  predicate RequestOk(e: End, service: Class, units: set<Unit>, g: Request, kind: Group) {
    e.init && e.state == (if kind.Finish? then DataIdle else Initialized)
    && ClassAllows(service, kind) && Shape(g.flags, kind) && UnitsAllow(units, g.flags)
    && Parts(g.flags) <= g.sound && Counted(g.flags) == g.threshold
  }

  // ---------------------------------------------------------------- PDUs out

  function Part(flags: set<Flag>, f: Flag): seq<Flag> {
    if f in flags then [f] else []
  }

  /** The order in which figrp2pdus and frgrp2pdus fill the PDU array. */
  function Emit(flags: set<Flag>): seq<Flag> {
    Part(flags, FBegin) + Part(flags, FSelect) + Part(flags, FCreate) + Part(flags, FClose) + Part(flags, FRdattr)
    + Part(flags, FChattr) + Part(flags, FDeselect) + Part(flags, FDelete) + Part(flags, FOpen) + Part(flags, FEnd)
  }

  /** figrp2pdus and frgrp2pdus, filling the array in place. */
  method FillPdus(flags: set<Flag>) returns (pdus: seq<Flag>)
    ensures pdus == Emit(flags)
  {
    hide Part;
    pdus := AddPart(AddPart([], flags, FBegin), flags, FSelect);
    assert pdus == Part(flags, FBegin) + Part(flags, FSelect);
    pdus := AddPart(AddPart(pdus, flags, FCreate), flags, FClose);
    pdus := AddPart(AddPart(pdus, flags, FRdattr), flags, FChattr);
    pdus := AddPart(AddPart(pdus, flags, FDeselect), flags, FDelete);
    pdus := AddPart(AddPart(pdus, flags, FOpen), flags, FEnd);
  }

  /** One step of the filling: the PDU goes in the next free slot when its flag is set. */
  function AddPart(pdus: seq<Flag>, flags: set<Flag>, f: Flag): (r: seq<Flag>)
    ensures r == pdus + Part(flags, f)
  {
    if f in flags then pdus + [f] else pdus
  }

  // ---------------------------------------------------------------- PDUs in

  /** The parts seen so far and the parts that may come next; None once a PDU is refused. */
  datatype Scan = Scan(flags: set<Flag>, next: set<Flag>)

  /** One PDU of the loop in doPSdata; `response` when the initiator is reading. */
  function Take(s: Scan, f: Flag, response: bool, units: set<Unit>): Option<Scan> {
    var flags := s.flags + {f};
    var open := if FSelect in s.flags || FCreate in s.flags then {FOpen} else {};
    var selected := {FRdattr, FChattr, FOpen, FDeselect, FDelete} + (if response then {FEnd} else {});
    if f !in s.next && !(f.FDelete? && !response) then None
    else match f
      case FBegin =>
        if Grouping in units then Some(Scan(flags, {FSelect, FCreate, FClose})) else None
      case FSelect => Some(Scan(flags, selected))
      case FCreate => if Limited in units then Some(Scan(flags, selected)) else None
      case FClose => Some(Scan(flags, {FRdattr, FChattr, FDeselect, FDelete}))
      case FRdattr =>
        if Limited in units then Some(Scan(flags, {FChattr, FDeselect, FDelete} + open)) else None
      case FChattr =>
        if Enhanced in units then Some(Scan(flags, {FDeselect, FDelete} + open)) else None
      case FDeselect => Some(Scan(flags, {FEnd}))
      case FDelete => if Limited in units then Some(Scan(flags, {FEnd})) else None
      case FOpen => Some(Scan(flags, {FEnd}))
      case FEnd => if Grouping in units then Some(Scan(flags, {})) else None
  }

  function TakeAll(s: Option<Scan>, pdus: seq<Flag>, response: bool, units: set<Unit>): Option<Scan> {
    if pdus == [] || s.None? then s
    else
      var front := TakeAll(s, pdus[..|pdus| - 1], response, units);
      if front.None? then front else Take(front.value, pdus[|pdus| - 1], response, units)
  }

  /** The flags of a whole group, None when a PDU is refused or one is missing at the end. */
  function Scanned(pdus: seq<Flag>, response: bool, units: set<Unit>): Option<set<Flag>> {
    var s := TakeAll(Some(Scan({}, {FBegin})), pdus, response, units);
    if s.None? || s.value.next != {} then None else Some(s.value.flags)
  }

  /** The loop of doPSdata over the PDUs of a group. */
  method ScanLoop(pdus: seq<Flag>, response: bool, units: set<Unit>) returns (r: Option<set<Flag>>)
    ensures r == Scanned(pdus, response, units)
  {
    var s := Scan({}, {FBegin});
    for k := 0 to |pdus|
      invariant TakeAll(Some(Scan({}, {FBegin})), pdus[..k], response, units) == Some(s)
    {
      assert pdus[..k + 1][..k] == pdus[..k];
      var t := Take(s, pdus[k], response, units);
      if t.None? {
        RefusedStays(pdus, k + 1, response, units);
        return None;
      }
      s := t.value;
    }
    assert pdus[..|pdus|] == pdus;
    r := if s.next != {} then None else Some(s.flags);
  }

  lemma {:induction false} RefusedStays(pdus: seq<Flag>, k: nat, response: bool, units: set<Unit>)
    requires k <= |pdus| && TakeAll(Some(Scan({}, {FBegin})), pdus[..k], response, units).None?
    ensures TakeAll(Some(Scan({}, {FBegin})), pdus, response, units).None?
    decreases |pdus| - k
  {
    if k == |pdus| {
      assert pdus[..k] == pdus;
    } else {
      assert pdus[..k + 1][..k] == pdus[..k];
      RefusedStays(pdus, k + 1, response, units);
    }
  }

  /** The responder's classification of a scanned request. */
  function Classify(flags: set<Flag>): Option<Group> {
    if FSelect in flags || FCreate in flags then
      if FDeselect in flags || FDelete in flags then Some(Manage)
      else if FOpen in flags then Some(Begin) else None
    else if FClose in flags then Some(Finish) else None
  }

  /** doPSdata at the responder: the group it takes the PDUs for, None on a protocol error. */
  function RequestIn(r: End, service: Class, units: set<Unit>, pdus: seq<Flag>, threshold: int)
    : Option<(Group, set<Flag>)>
  {
    var flags := Scanned(pdus, false, units);
    if flags.None? || threshold != |pdus| - 2 then None
    else
      var kind := Classify(flags.value);
      if kind.None? || !ClassAllows(service, kind.value) then None
      else if Receive(r, GroupReq(kind.value)).Taken? then Some((kind.value, flags.value))
      else None
  }

  // ---------------------------------------------------------------- step by step

  function Go(s: Option<Scan>, flags: set<Flag>, f: Flag, response: bool, units: set<Unit>): Option<Scan> {
    if s.None? || f !in flags then s else Take(s.value, f, response, units)
  }

  /** Scanning what Emit produced, one part after the other. */
  function Walk(flags: set<Flag>, response: bool, units: set<Unit>): Option<Scan> {
    var s0 := Go(Some(Scan({}, {FBegin})), flags, FBegin, response, units);
    var s1 := Go(s0, flags, FSelect, response, units);
    var s2 := Go(s1, flags, FCreate, response, units);
    var s3 := Go(s2, flags, FClose, response, units);
    var s4 := Go(s3, flags, FRdattr, response, units);
    var s5 := Go(s4, flags, FChattr, response, units);
    var s6 := Go(s5, flags, FDeselect, response, units);
    var s7 := Go(s6, flags, FDelete, response, units);
    var s8 := Go(s7, flags, FOpen, response, units);
    Go(s8, flags, FEnd, response, units)
  }

  lemma TakePart(s: Option<Scan>, pdus: seq<Flag>, flags: set<Flag>, f: Flag, response: bool, units: set<Unit>)
    ensures TakeAll(s, pdus + Part(flags, f), response, units)
         == Go(TakeAll(s, pdus, response, units), flags, f, response, units)
  {
    if f in flags {
      assert (pdus + [f])[..|pdus|] == pdus;
    } else {
      assert pdus + [] == pdus;
    }
  }

  lemma WalkScans(flags: set<Flag>, response: bool, units: set<Unit>)
    ensures TakeAll(Some(Scan({}, {FBegin})), Emit(flags), response, units) == Walk(flags, response, units)
  {
    hide TakeAll, Take, Go;
    var s := Some(Scan({}, {FBegin}));
    var p0 := Part(flags, FBegin);
    var p1 := p0 + Part(flags, FSelect);
    var p2 := p1 + Part(flags, FCreate);
    var p3 := p2 + Part(flags, FClose);
    var p4 := p3 + Part(flags, FRdattr);
    var p5 := p4 + Part(flags, FChattr);
    var p6 := p5 + Part(flags, FDeselect);
    var p7 := p6 + Part(flags, FDelete);
    var p8 := p7 + Part(flags, FOpen);
    TakeNothing(s, response, units);
    assert [] + p0 == p0;
    TakePart(s, [], flags, FBegin, response, units);
    TakePart(s, p0, flags, FSelect, response, units);
    TakePart(s, p1, flags, FCreate, response, units);
    TakePart(s, p2, flags, FClose, response, units);
    TakePart(s, p3, flags, FRdattr, response, units);
    TakePart(s, p4, flags, FChattr, response, units);
    TakePart(s, p5, flags, FDeselect, response, units);
    TakePart(s, p6, flags, FDelete, response, units);
    TakePart(s, p7, flags, FOpen, response, units);
    TakePart(s, p8, flags, FEnd, response, units);
  }

  lemma TakeNothing(s: Option<Scan>, response: bool, units: set<Unit>)
    ensures TakeAll(s, [], response, units) == s
  {
  }

  // ---------------------------------------------------------------- what a scan accepts

  /** The scan after F-BEGIN-GROUP and the select, create or close of a group. */
  function Headed(flags: set<Flag>, response: bool, units: set<Unit>): Option<Scan> {
    var s0 := Go(Some(Scan({}, {FBegin})), flags, FBegin, response, units);
    var s1 := Go(s0, flags, FSelect, response, units);
    var s2 := Go(s1, flags, FCreate, response, units);
    Go(s2, flags, FClose, response, units)
  }

  /** The scan of the rest. */
  function Tailed(s: Option<Scan>, flags: set<Flag>, response: bool, units: set<Unit>): Option<Scan> {
    var s4 := Go(s, flags, FRdattr, response, units);
    var s5 := Go(s4, flags, FChattr, response, units);
    var s6 := Go(s5, flags, FDeselect, response, units);
    var s7 := Go(s6, flags, FDelete, response, units);
    var s8 := Go(s7, flags, FOpen, response, units);
    Go(s8, flags, FEnd, response, units)
  }

  predicate Heads(flags: set<Flag>, head: Flag) {
    (head.FSelect? || head.FCreate? || head.FClose?)
    && (FSelect in flags ==> head.FSelect?) && (FCreate in flags ==> head.FCreate?)
    && (FClose in flags ==> head.FClose?)
  }

  predicate Tails(flags: set<Flag>, tail: Flag) {
    (tail.FDeselect? || tail.FDelete? || tail.FOpen?)
    && (FDeselect in flags ==> tail.FDeselect?) && (FDelete in flags ==> tail.FDelete?)
    && (FOpen in flags ==> tail.FOpen?)
  }

  /** What may follow the head of a group. */
  function AfterHead(head: Flag, response: bool): set<Flag> {
    if head.FClose? then {FRdattr, FChattr, FDeselect, FDelete}
    else {FRdattr, FChattr, FOpen, FDeselect, FDelete} + (if response then {FEnd} else {})
  }

  lemma HeadedBy(flags: set<Flag>, head: Flag, response: bool, units: set<Unit>)
    requires Heads(flags, head) && UnitsAllow(units, flags) && FBegin in flags && head in flags
    ensures Headed(flags, response, units) == Some(Scan({FBegin, head}, AfterHead(head, response)))
  {
    assert {} + {FBegin} == {FBegin} && {FBegin} + {head} == {FBegin, head};
  }

  lemma NotHeaded(flags: set<Flag>, head: Flag, response: bool, units: set<Unit>)
    requires Heads(flags, head) && UnitsAllow(units, flags) && !(FBegin in flags && head in flags)
    ensures var h := Headed(flags, response, units);
            h.None? || h.value.next == {FBegin} || h.value.next == {FSelect, FCreate, FClose}
  {
  }

  /** A group with no proper head is refused, or ends with something still expected. */
  lemma HeadlessTail(s: Scan, flags: set<Flag>, response: bool, units: set<Unit>)
    requires s.next == {FBegin} || s.next == {FSelect, FCreate, FClose}
    requires !response ==> FDelete !in flags
    ensures var t := Tailed(Some(s), flags, response, units); t.None? || t == Some(s)
  {
  }

  /** What a scan of the parts after the head comes to. */
  predicate Completes(flags: set<Flag>, head: Flag, tail: Flag, response: bool) {
    FEnd in flags
    && (tail !in flags ==> response && !head.FClose? && FRdattr !in flags && FChattr !in flags)
  }

  lemma TailedBy(flags: set<Flag>, head: Flag, tail: Flag, response: bool, units: set<Unit>)
    requires Heads(flags, head) && Tails(flags, tail) && (tail.FOpen? ==> !head.FClose?) && UnitsAllow(units, flags)
    requires FBegin in flags && head in flags
    ensures var t := Tailed(Some(Scan({FBegin, head}, AfterHead(head, response))), flags, response, units);
            (t.Some? && t.value.next == {}) <==> Completes(flags, head, tail, response)
  {
  }

  lemma GoFlags(s: Option<Scan>, flags: set<Flag>, f: Flag, response: bool, units: set<Unit>)
    ensures var t := Go(s, flags, f, response, units);
            t.Some? ==> s.Some? && t.value.flags == s.value.flags + flags * {f}
  {
    var t := Go(s, flags, f, response, units);
    if t.Some? {
      assert t.value.flags == s.value.flags + flags * {f};
    }
  }

  lemma TailedFlags(flags: set<Flag>, head: Flag, response: bool, units: set<Unit>)
    requires Heads(flags, head) && FBegin in flags && head in flags
    ensures var t := Tailed(Some(Scan({FBegin, head}, AfterHead(head, response))), flags, response, units);
            t.Some? ==> t.value.flags == flags
  {
    hide Go, AfterHead;
    var s := Some(Scan({FBegin, head}, AfterHead(head, response)));
    var s4 := Go(s, flags, FRdattr, response, units);
    var s5 := Go(s4, flags, FChattr, response, units);
    var s6 := Go(s5, flags, FDeselect, response, units);
    var s7 := Go(s6, flags, FDelete, response, units);
    var s8 := Go(s7, flags, FOpen, response, units);
    var t := Go(s8, flags, FEnd, response, units);
    GoFlags(s, flags, FRdattr, response, units);
    GoFlags(s4, flags, FChattr, response, units);
    GoFlags(s5, flags, FDeselect, response, units);
    GoFlags(s6, flags, FDelete, response, units);
    GoFlags(s7, flags, FOpen, response, units);
    GoFlags(s8, flags, FEnd, response, units);
    if t.Some? {
      assert t.value.flags == {FBegin, head} + flags * {FRdattr} + flags * {FChattr} + flags * {FDeselect}
                              + flags * {FDelete} + flags * {FOpen} + flags * {FEnd};
      Gathered(flags, head);
    }
  }

  lemma Gathered(flags: set<Flag>, head: Flag)
    requires Heads(flags, head) && FBegin in flags && head in flags
    ensures {FBegin, head} + flags * {FRdattr} + flags * {FChattr} + flags * {FDeselect}
            + flags * {FDelete} + flags * {FOpen} + flags * {FEnd} == flags
  {
    forall f | f in flags
      ensures f in {FBegin, head} + flags * {FRdattr} + flags * {FChattr} + flags * {FDeselect}
                   + flags * {FDelete} + flags * {FOpen} + flags * {FEnd}
    {
      match f case FBegin | FSelect | FCreate | FClose | FRdattr | FChattr | FDeselect | FDelete | FOpen | FEnd => {}
    }
  }

  /** What the scan of an emitted group comes to: exactly the flags of the group when the
      group is complete, nothing otherwise. */
  lemma ScanEmitted(flags: set<Flag>, head: Flag, tail: Flag, response: bool, units: set<Unit>)
    requires Heads(flags, head) && Tails(flags, tail) && (tail.FOpen? ==> !head.FClose?) && UnitsAllow(units, flags)
    requires !response ==> FBegin in flags && head in flags
    ensures Scanned(Emit(flags), response, units)
         == if FBegin in flags && head in flags && Completes(flags, head, tail, response)
            then Some(flags) else None
  {
    hide Go, AfterHead, TakeAll, Emit;
    WalkScans(flags, response, units);
    var h := Headed(flags, response, units);
    assert Walk(flags, response, units) == Tailed(h, flags, response, units);
    if FBegin in flags && head in flags {
      HeadedBy(flags, head, response, units);
      TailedBy(flags, head, tail, response, units);
      TailedFlags(flags, head, response, units);
    } else {
      NotHeaded(flags, head, response, units);
      if h.Some? {
        HeadlessTail(h.value, flags, response, units);
        assert FBegin in {FBegin} && FSelect in {FSelect, FCreate, FClose};
      } else {
        Refused(flags, response, units);
      }
    }
  }

  lemma Refused(flags: set<Flag>, response: bool, units: set<Unit>)
    ensures Tailed(None, flags, response, units).None?
  {
  }

  // ---------------------------------------------------------------- requests across the association

  function HeadOf(flags: set<Flag>): Flag {
    if FSelect in flags then FSelect else if FCreate in flags then FCreate else FClose
  }

  function TailOf(flags: set<Flag>): Flag {
    if FDeselect in flags then FDeselect else if FDelete in flags then FDelete else FOpen
  }

  lemma ShapeEnds(flags: set<Flag>, kind: Group)
    requires Shape(flags, kind)
    ensures var h, t := HeadOf(flags), TailOf(flags);
            Heads(flags, h) && Tails(flags, t) && h in flags && t in flags && (t.FOpen? ==> !h.FClose?)
            && FBegin in flags && Completes(flags, h, t, false) && Completes(flags, h, t, true)
    ensures Classify(flags) == Some(kind)
  {
  }

  /** The legal sequences: begin, the head, attributes read before changed, the tail, end. */
  lemma LegalSequence(flags: set<Flag>, kind: Group)
    requires Shape(flags, kind)
    ensures Emit(flags) == [FBegin, HeadOf(flags)] + Part(flags, FRdattr) + Part(flags, FChattr) + [TailOf(flags), FEnd]
    ensures match kind
            case Manage => HeadOf(flags) in {FSelect, FCreate} && TailOf(flags) in {FDeselect, FDelete}
            case Begin => HeadOf(flags) in {FSelect, FCreate} && TailOf(flags) == FOpen
            case Finish => HeadOf(flags) == FClose && TailOf(flags) in {FDeselect, FDelete}
    ensures |Emit(flags)| == Counted(flags) + 2
  {
    OneHead(flags, kind);
    OneTail(flags, kind);
    PartSize(flags, FRdattr);
    PartSize(flags, FChattr);
    PartOf(flags, FBegin);
    PartOf(flags, FEnd);
    hide Part;
    var h, t, rd, ch := HeadOf(flags), TailOf(flags), Part(flags, FRdattr), Part(flags, FChattr);
    Regroup(Part(flags, FSelect), Part(flags, FCreate), Part(flags, FClose), rd, ch,
            Part(flags, FDeselect), Part(flags, FDelete), Part(flags, FOpen));
    hide HeadOf, TailOf, Shape;
    assert Emit(flags) == [FBegin] + [h] + rd + ch + [t] + [FEnd];
    assert [FBegin] + [h] == [FBegin, h];
    assert [FBegin, h] + rd + ch + [t] + [FEnd] == [FBegin, h] + rd + ch + [t, FEnd];
  }

  /** A legal sequence, told by the PDUs alone. */
  ghost predicate LegalPdus(pdus: seq<Flag>, kind: Group) {
    exists head, attrs, tail :: pdus == [FBegin, head] + attrs + [tail, FEnd] && LegalParts(head, attrs, tail, kind)
  }

  predicate LegalParts(head: Flag, attrs: seq<Flag>, tail: Flag, kind: Group) {
    attrs in {[], [FRdattr], [FChattr], [FRdattr, FChattr]}
    && match kind
       case Manage => head in {FSelect, FCreate} && tail in {FDeselect, FDelete}
       case Begin => head in {FSelect, FCreate} && tail == FOpen
       case Finish => head == FClose && tail in {FDeselect, FDelete}
  }

  /** figrpchk lets a group through, for its shape, exactly when its PDUs are a legal sequence. */
  lemma ShapeExact(flags: set<Flag>, kind: Group)
    ensures Shape(flags, kind) <==> LegalPdus(Emit(flags), kind)
  {
    hide Emit;
    if Shape(flags, kind) {
      LegalSequence(flags, kind);
      AttrsLegal(flags, kind);
      var attrs := Part(flags, FRdattr) + Part(flags, FChattr);
      assert [FBegin, HeadOf(flags)] + Part(flags, FRdattr) + Part(flags, FChattr) == [FBegin, HeadOf(flags)] + attrs;
    }
    if LegalPdus(Emit(flags), kind) {
      var head, attrs, tail :|
        Emit(flags) == [FBegin, head] + attrs + [tail, FEnd] && LegalParts(head, attrs, tail, kind);
      EmitMembers(flags);
      SequenceMembers(head, attrs, tail);
      PartsShape(flags, head, attrs, tail, kind);
    }
  }

  lemma PartsShape(flags: set<Flag>, head: Flag, attrs: seq<Flag>, tail: Flag, kind: Group)
    requires LegalParts(head, attrs, tail, kind)
    requires forall f :: f in flags <==> f in {FBegin, head, tail, FEnd} || f in attrs
    ensures Shape(flags, kind)
  {
  }

  lemma AttrsLegal(flags: set<Flag>, kind: Group)
    requires Shape(flags, kind)
    ensures LegalParts(HeadOf(flags), Part(flags, FRdattr) + Part(flags, FChattr), TailOf(flags), kind)
  {
    var rd, ch := Part(flags, FRdattr), Part(flags, FChattr);
    assert rd + ch == if FRdattr !in flags then ch else if FChattr !in flags then rd else [FRdattr, FChattr];
    assert rd + ch in {[], [FRdattr], [FChattr], [FRdattr, FChattr]};
  }

  lemma EmitMembers(flags: set<Flag>)
    ensures forall f :: f in Emit(flags) <==> f in flags
  {
    var p0 := Part(flags, FBegin);
    var p1 := p0 + Part(flags, FSelect);
    var p2 := p1 + Part(flags, FCreate);
    var p3 := p2 + Part(flags, FClose);
    var p4 := p3 + Part(flags, FRdattr);
    var p5 := p4 + Part(flags, FChattr);
    var p6 := p5 + Part(flags, FDeselect);
    var p7 := p6 + Part(flags, FDelete);
    var p8 := p7 + Part(flags, FOpen);
    assert [] + p0 == p0;
    hide Part;
    MembersPart([], flags, {}, FBegin);
    MembersPart(p0, flags, {FBegin}, FSelect);
    MembersPart(p1, flags, {FBegin, FSelect}, FCreate);
    MembersPart(p2, flags, {FBegin, FSelect, FCreate}, FClose);
    MembersPart(p3, flags, {FBegin, FSelect, FCreate, FClose}, FRdattr);
    MembersPart(p4, flags, {FBegin, FSelect, FCreate, FClose, FRdattr}, FChattr);
    MembersPart(p5, flags, {FBegin, FSelect, FCreate, FClose, FRdattr, FChattr}, FDeselect);
    MembersPart(p6, flags, {FBegin, FSelect, FCreate, FClose, FRdattr, FChattr, FDeselect}, FDelete);
    MembersPart(p7, flags, {FBegin, FSelect, FCreate, FClose, FRdattr, FChattr, FDeselect, FDelete}, FOpen);
    MembersPart(p8, flags, {FBegin, FSelect, FCreate, FClose, FRdattr, FChattr, FDeselect, FDelete, FOpen}, FEnd);
  }

  lemma MembersPart(s: seq<Flag>, flags: set<Flag>, seen: set<Flag>, f: Flag)
    requires forall g :: g in s <==> g in flags && g in seen
    ensures forall g :: g in s + Part(flags, f) <==> g in flags && (g in seen || g == f)
  {
  }

  lemma SequenceMembers(head: Flag, attrs: seq<Flag>, tail: Flag)
    ensures forall f :: f in [FBegin, head] + attrs + [tail, FEnd]
                        <==> f in {FBegin, head, tail, FEnd} || f in attrs
  {
    var p := [FBegin, head] + attrs + [tail, FEnd];
    forall f
      ensures f in p <==> f in {FBegin, head, tail, FEnd} || f in attrs
    {
      if f in attrs {
        var k :| 0 <= k < |attrs| && attrs[k] == f;
        assert p[2 + k] == f;
      }
      assert p[0] == FBegin && p[1] == head && p[|p| - 2] == tail && p[|p| - 1] == FEnd;
    }
  }

  lemma PartSize(flags: set<Flag>, f: Flag)
    ensures |Part(flags, f)| == One(f in flags)
  {
  }

  lemma PartOf(flags: set<Flag>, f: Flag)
    requires f in flags
    ensures Part(flags, f) == [f]
  {
  }

  lemma OneHead(flags: set<Flag>, kind: Group)
    requires Shape(flags, kind)
    ensures Part(flags, FSelect) + Part(flags, FCreate) + Part(flags, FClose) == [HeadOf(flags)]
    ensures One(FSelect in flags || FCreate in flags) + One(FClose in flags) == 1
  {
  }

  lemma OneTail(flags: set<Flag>, kind: Group)
    requires Shape(flags, kind)
    ensures Part(flags, FDeselect) + Part(flags, FDelete) + Part(flags, FOpen) == [TailOf(flags)]
    ensures One(FDeselect in flags) + One(FDelete in flags) + One(FOpen in flags) == 1
  {
  }

  lemma Regroup(a: seq<Flag>, b: seq<Flag>, c: seq<Flag>, d: seq<Flag>,
                e: seq<Flag>, f: seq<Flag>, g: seq<Flag>, h: seq<Flag>)
    ensures [FBegin] + a + b + c + d + e + f + g + h + [FEnd]
         == [FBegin] + (a + b + c) + d + e + (f + g + h) + [FEnd]
  {
    assert [FBegin] + a + b + c == [FBegin] + (a + b + c);
    var front := [FBegin] + (a + b + c) + d + e;
    assert front + f + g + h == front + (f + g + h);
  }

  /** Every group figrpchk accepts goes out as threshold + 2 PDUs, and a responder with the
      same class and units that is in the matching state takes it for the same kind of
      group with the same parts. */
  lemma RequestArrives(e: End, r: End, service: Class, units: set<Unit>, g: Request, kind: Group)
    requires RequestOk(e, service, units, g, kind) && !r.init && r.state == e.state
    ensures |Emit(g.flags)| == g.threshold + 2
    ensures RequestIn(r, service, units, Emit(g.flags), g.threshold) == Some((kind, g.flags))
  {
    hide Emit, Scanned;
    LegalSequence(g.flags, kind);
    RequestRead(r, service, units, g.flags, kind);
  }

  /** The part f of a group asks for this of the functional units. */
  predicate Served(f: Flag, units: set<Unit>) {
    match f
    case FBegin => Grouping in units
    case FCreate => Limited in units
    case FRdattr => Limited in units
    case FDelete => Limited in units
    case FChattr => Enhanced in units
    case _ => true
  }

  lemma GoRefuses(s: Option<Scan>, flags: set<Flag>, f: Flag, response: bool, units: set<Unit>)
    ensures f in flags && !Served(f, units) ==> Go(s, flags, f, response, units).None?
    ensures s.None? ==> Go(s, flags, f, response, units).None?
  {
  }

  /** A reader that lacks a unit the group needs refuses it. */
  lemma MissingUnit(flags: set<Flag>, response: bool, units: set<Unit>)
    requires FBegin in flags && !UnitsAllow(units, flags)
    ensures Scanned(Emit(flags), response, units).None?
  {
    WalkScans(flags, response, units);
    hide Go, TakeAll, Emit;
    var s0 := Go(Some(Scan({}, {FBegin})), flags, FBegin, response, units);
    var s1 := Go(s0, flags, FSelect, response, units);
    var s2 := Go(s1, flags, FCreate, response, units);
    var s3 := Go(s2, flags, FClose, response, units);
    var s4 := Go(s3, flags, FRdattr, response, units);
    var s5 := Go(s4, flags, FChattr, response, units);
    var s6 := Go(s5, flags, FDeselect, response, units);
    var s7 := Go(s6, flags, FDelete, response, units);
    var s8 := Go(s7, flags, FOpen, response, units);
    GoRefuses(Some(Scan({}, {FBegin})), flags, FBegin, response, units);
    GoRefuses(s0, flags, FSelect, response, units);
    GoRefuses(s1, flags, FCreate, response, units);
    GoRefuses(s2, flags, FClose, response, units);
    GoRefuses(s3, flags, FRdattr, response, units);
    GoRefuses(s4, flags, FChattr, response, units);
    GoRefuses(s5, flags, FDeselect, response, units);
    GoRefuses(s6, flags, FDelete, response, units);
    GoRefuses(s7, flags, FOpen, response, units);
    GoRefuses(s8, flags, FEnd, response, units);
  }

  /** What a responder makes of a group that passed the initiator's checks: its own kind and
      parts, if and only if the class and its own units allow them and it is in the state
      such a group starts from. */
  lemma RequestRead(r: End, service: Class, units: set<Unit>, flags: set<Flag>, kind: Group)
    requires Shape(flags, kind)
    ensures RequestIn(r, service, units, Emit(flags), Counted(flags))
         == if UnitsAllow(units, flags) && ClassAllows(service, kind) && Receive(r, GroupReq(kind)).Taken?
            then Some((kind, flags)) else None
  {
    hide Emit, Scanned, Receive;
    LegalSequence(flags, kind);
    ShapeEnds(flags, kind);
    if UnitsAllow(units, flags) {
      ScanEmitted(flags, HeadOf(flags), TailOf(flags), false, units);
    } else {
      MissingUnit(flags, false, units);
    }
  }

  // ---------------------------------------------------------------- responses

  /** struct FTAMgroup of a response: whether select-or-create and open succeeded (the
      second as the caller left it, even with no F-OPEN part), and the parts that pass
      their parameter checks. */
  datatype Reply = Reply(flags: set<Flag>, headOk: bool, openOk: bool, sound: set<Flag>)

  function Waiting(kind: Group): Phase {
    match kind case Manage => Management case Begin => BulkBegin case Finish => BulkEnd
  }

  /** frgrpchk; `group` is fsb_group. */
  predicate ReplyOk(r: End, group: set<Flag>, g: Reply, kind: Group) {
    !r.init && r.state == Waiting(kind) && g.flags <= group && Parts(g.flags) <= g.sound
  }

  /** The parts frgrp2pdus keeps: after a failed select or create nothing else. */
  function Cut(g: Reply): set<Flag> {
    if FSelect in g.flags then if g.headOk then g.flags else g.flags * {FBegin, FSelect, FEnd}
    else if FCreate in g.flags && !g.headOk then g.flags * {FBegin, FCreate, FEnd}
    else g.flags
  }

  /** The state FGroupResponseAux leaves. */
  function Answered(g: Reply, kind: Group): Phase {
    if kind.Begin? && g.headOk && g.openOk then DataIdle else Initialized
  }

  /** doPSdata at the initiator: its new state, None on a protocol error.  An F-OPEN that
      is not there counts as a success, FSTATE_SUCCESS being zero. */
  function ReplyIn(e: End, service: Class, units: set<Unit>, group: set<Flag>, pdus: seq<Flag>,
                   headOk: bool, openOk: bool): Option<Phase>
  {
    var flags := Scanned(pdus, true, units);
    if flags.None? then None
    else if FSelect in flags.value || FCreate in flags.value then
      if !(e.state.Management? || e.state.BulkBegin?) || !(flags.value <= group) then None
      else if e.state.BulkBegin? && headOk && (FOpen in flags.value ==> openOk) then Some(DataIdle)
      else Some(Initialized)
    else if FClose in flags.value && ClassAllows(service, Finish) && e.state.BulkEnd? && flags.value <= group
    then Some(Initialized)
    else None
  }

  /** What a responder must leave in its answer: both brackets, the head of the group, and
      a tail unless the answer is a bare failed or cut-short select or create. */
  predicate Answers(flags: set<Flag>, group: set<Flag>) {
    FBegin in flags && FEnd in flags && HeadOf(group) in flags
    && (FRdattr in flags || FChattr in flags || FClose in flags ==> TailOf(group) in flags)
  }

  /** For every answer frgrpchk lets through, the initiator takes it exactly when Answers
      holds of what is left of it, and then both ends are in the same state exactly when
      the open state the responder acted on is the one the initiator sees. */
  lemma ReplyArrives(e: End, r: End, service: Class, units: set<Unit>, q: Request, kind: Group, g: Reply)
    requires RequestOk(e, service, units, q, kind) && ReplyOk(r, q.flags, g, kind)
    ensures var waiting := e.(state := Waiting(kind));
            var t := ReplyIn(waiting, service, units, q.flags, Emit(Cut(g)), g.headOk, g.openOk);
            && (t.Some? <==> Answers(Cut(g), q.flags))
            && (t.Some? ==> (t.value == Answered(g, kind)
                             <==> (kind.Begin? && g.headOk && FOpen !in g.flags ==> g.openOk)))
  {
    hide Emit, Scanned;
    var c := Cut(g);
    var head, tail := HeadOf(q.flags), TailOf(q.flags);
    ShapeEnds(q.flags, kind);
    assert c <= q.flags;
    CutKeepsEnds(c, q.flags, head, tail);
    ScanEmitted(c, head, tail, true, units);
  }

  lemma CutKeepsEnds(c: set<Flag>, group: set<Flag>, head: Flag, tail: Flag)
    requires c <= group && Heads(group, head) && Tails(group, tail)
    ensures Heads(c, head) && Tails(c, tail)
  {
  }

  /** The elements of s that are in keep, in order. */
  function Keep(s: seq<Flag>, keep: set<Flag>): seq<Flag> {
    if s == [] then [] else Keep(s[..|s| - 1], keep) + Part(keep, s[|s| - 1])
  }

  lemma KeepPart(s: seq<Flag>, group: set<Flag>, keep: set<Flag>, f: Flag)
    requires keep <= group
    ensures Keep(s + Part(group, f), keep) == Keep(s, keep) + Part(keep, f)
  {
    if f in group {
      assert (s + [f])[..|s|] == s;
    } else {
      assert s + [] == s && Keep(s, keep) + [] == Keep(s, keep);
    }
  }

  /** The answer's PDUs are those of the request with some left out, in the same order. */
  lemma ReplySelects(group: set<Flag>, keep: set<Flag>)
    requires keep <= group
    ensures Emit(keep) == Keep(Emit(group), keep)
  {
    hide Keep, Part;
    var p0 := Part(group, FBegin);
    var p1 := p0 + Part(group, FSelect);
    var p2 := p1 + Part(group, FCreate);
    var p3 := p2 + Part(group, FClose);
    var p4 := p3 + Part(group, FRdattr);
    var p5 := p4 + Part(group, FChattr);
    var p6 := p5 + Part(group, FDeselect);
    var p7 := p6 + Part(group, FDelete);
    var p8 := p7 + Part(group, FOpen);
    assert [] + p0 == p0;
    KeepPart([], group, keep, FBegin);
    KeepNothing(keep);
    KeepPart(p0, group, keep, FSelect);
    KeepPart(p1, group, keep, FCreate);
    KeepPart(p2, group, keep, FClose);
    KeepPart(p3, group, keep, FRdattr);
    KeepPart(p4, group, keep, FChattr);
    KeepPart(p5, group, keep, FDeselect);
    KeepPart(p6, group, keep, FDelete);
    KeepPart(p7, group, keep, FOpen);
    KeepPart(p8, group, keep, FEnd);
    assert [] + Part(keep, FBegin) == Part(keep, FBegin);
  }

  lemma KeepNothing(keep: set<Flag>)
    ensures Keep([], keep) == []
  {
  }

  /** A responder that leaves F-OPEN out of a successful bulk-begin answer while its own
      open state says failure parts company with the initiator. */
  lemma OpenLeftOut(e: End, r: End, service: Class, units: set<Unit>, q: Request)
    requires RequestOk(e, service, units, q, Begin) && !r.init && r.state == BulkBegin
    ensures exists g: Reply :: ReplyOk(r, q.flags, g, Begin) && Answered(g, Begin) == Initialized
              && ReplyIn(e.(state := BulkBegin), service, units, q.flags, Emit(Cut(g)), g.headOk, g.openOk)
                 == Some(DataIdle)
  {
    hide Emit, Scanned;
    var head := HeadOf(q.flags);
    ShapeEnds(q.flags, Begin);
    var g := Reply({FBegin, head, FEnd}, true, false, {head});
    assert Parts(g.flags) <= g.sound;
    ReplyArrives(e, r, service, units, q, Begin, g);
  }
}
