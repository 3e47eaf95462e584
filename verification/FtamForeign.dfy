/** What an end makes of a group of PDUs from any peer, one that keeps to figrpchk and
    frgrpchk or not (doPSdata in ftam/ftamprovider.c): the language the automaton takes, told
    without its states, and the groups that are taken. */
module FtamForeign {
  import opened Options
  import opened FtamRegime
  import N = FtamNegotiation
  import opened FtamGroups
  import A = FtamAssociation
  import D = FtamDialogue

  function First(): Option<Scan> {
    Some(Scan({}, {FBegin}))
  }

  /** Head, attributes and tail of a sequence; a response may be cut short behind its select
      or create. */
  predicate Sequence(head: Flag, attrs: seq<Flag>, tail: seq<Flag>, response: bool) {
    (head.FSelect? || head.FCreate? || head.FClose?) && Attributes(attrs)
    && (tail == [FDeselect] || tail == [FDelete] || (tail == [FOpen] && head != FClose)
        || (tail == [] && attrs == [] && response && head != FClose))
  }

  predicate Attributes(attrs: seq<Flag>) {
    attrs == [] || attrs == [FRdattr] || attrs == [FChattr] || attrs == [FRdattr, FChattr]
  }

  ghost predicate InLanguage(pdus: seq<Flag>, response: bool, units: set<N.Unit>) {
    (forall f :: f in pdus ==> Served(f, units))
    && exists head, attrs, tail ::
         pdus == [FBegin, head] + attrs + tail + [FEnd] && Sequence(head, attrs, tail, response)
  }

  // ---------------------------------------------------------------- the last PDU

  /** What may follow a PDU; `open` when a select or create came before. */
  function After(f: Flag, response: bool, open: bool): set<Flag> {
    match f
    case FBegin => {FSelect, FCreate, FClose}
    case FSelect => {FRdattr, FChattr, FOpen, FDeselect, FDelete} + if response then {FEnd} else {}
    case FCreate => {FRdattr, FChattr, FOpen, FDeselect, FDelete} + if response then {FEnd} else {}
    case FClose => {FRdattr, FChattr, FDeselect, FDelete}
    case FRdattr => {FChattr, FDeselect, FDelete} + if open then {FOpen} else {}
    case FChattr => {FDeselect, FDelete} + if open then {FOpen} else {}
    case FEnd => {}
    case _ => {FEnd}
  }

  lemma TakeLast(s: Scan, f: Flag, response: bool, units: set<N.Unit>)
    requires response || f != FDelete
    ensures var t := Take(s, f, response, units);
            var open := FSelect in s.flags || FCreate in s.flags;
            && (t.Some? <==> f in s.next && Served(f, units) && (f.FEnd? ==> N.Grouping in units))
            && (t.Some? ==> t.value == Scan(s.flags + {f}, After(f, response, open)))
  {
  }

  // ---------------------------------------------------------------- stage by stage

  /** How far a sequence has come. */
  datatype Stage =
    | Nothing | Begun | Headed(head: Flag, attrs: seq<Flag>)
    | Tailed(head: Flag, attrs: seq<Flag>, tail: Flag) | Ended(head: Flag, attrs: seq<Flag>, end: seq<Flag>)

  function Spelt(st: Stage): seq<Flag> {
    match st
    case Nothing => []
    case Begun => [FBegin]
    case Headed(head, attrs) => [FBegin, head] + attrs
    case Tailed(head, attrs, tail) => [FBegin, head] + attrs + [tail]
    case Ended(head, attrs, end) => [FBegin, head] + attrs + end + [FEnd]
  }

  predicate Lawful(st: Stage, response: bool) {
    match st
    case Nothing => true
    case Begun => true
    case Headed(head, attrs) => Sequence(head, attrs, [FDeselect], response)
    case Tailed(head, attrs, tail) => Sequence(head, attrs, [tail], response)
    case Ended(head, attrs, end) => Sequence(head, attrs, end, response)
  }

  function Expected(st: Stage, response: bool): set<Flag> {
    match st
    case Nothing => {FBegin}
    case Begun => {FSelect, FCreate, FClose}
    case Headed(head, attrs) => After(if attrs == [] then head else attrs[|attrs| - 1], response, head != FClose)
    case Tailed(_, _, _) => {FEnd}
    case Ended(_, _, _) => {}
  }

  predicate HasHead(st: Stage) {
    st.Headed? || st.Tailed? || st.Ended?
  }

  ghost predicate Reached(st: Stage, pdus: seq<Flag>, s: Scan, response: bool, units: set<N.Unit>) {
    pdus == Spelt(st) && Lawful(st, response) && s.next == Expected(st, response)
    && (forall f :: f in pdus ==> Served(f, units)) && (forall f :: f in s.flags <==> f in pdus)
    && ((FSelect in s.flags || FCreate in s.flags) <==> HasHead(st) && st.head != FClose)
  }

  /** The stage behind one more PDU. */
  function Onward(st: Stage, f: Flag): Stage {
    match st
    case Nothing => Begun
    case Begun => Headed(f, [])
    case Headed(head, attrs) =>
      if f.FRdattr? || f.FChattr? then Headed(head, attrs + [f])
      else if f.FEnd? then Ended(head, attrs, []) else Tailed(head, attrs, f)
    case Tailed(head, attrs, tail) => Ended(head, attrs, [tail])
    case _ => st
  }

  lemma OnwardSpelt(st: Stage, f: Flag, response: bool)
    requires Lawful(st, response) && f in Expected(st, response)
    ensures Lawful(Onward(st, f), response) && Spelt(Onward(st, f)) == Spelt(st) + [f]
    ensures Expected(Onward(st, f), response) == After(f, response, HasHead(st) && st.head != FClose)
    ensures HasHead(Onward(st, f)) <==> HasHead(st) || st.Begun?
    ensures HasHead(Onward(st, f)) ==> Onward(st, f).head == if st.Begun? then f else st.head
  {
    match st {
      case Headed(head, attrs) =>
        HeadedOnward(head, attrs, f, response);
      case Begun =>
        assert [FBegin, f] + [] == [FBegin] + [f];
      case _ =>
    }
  }

  lemma HeadedOnward(head: Flag, attrs: seq<Flag>, f: Flag, response: bool)
    requires Lawful(Headed(head, attrs), response) && f in Expected(Headed(head, attrs), response)
    ensures var st := Onward(Headed(head, attrs), f);
            && HasHead(st) && st.head == head && Lawful(st, response) && Spelt(st) == [FBegin, head] + attrs + [f]
            && Expected(st, response) == After(f, response, head != FClose)
  {
    AttrsOnward(head, attrs, f, response);
    assert [FBegin, head] + attrs + [] + [FEnd] == [FBegin, head] + attrs + [FEnd];
    assert [FBegin, head] + (attrs + [f]) == [FBegin, head] + attrs + [f];
  }

  lemma AttrsOnward(head: Flag, attrs: seq<Flag>, f: Flag, response: bool)
    requires Sequence(head, attrs, [FDeselect], response)
    requires f in Expected(Headed(head, attrs), response)
    ensures f.FRdattr? ==> attrs == [] && attrs + [f] == [FRdattr]
    ensures f.FChattr? ==> Attributes(attrs + [f])
    ensures f.FEnd? ==> attrs == [] && response && head != FClose
    ensures f.FOpen? ==> head != FClose
    ensures f.FRdattr? || f.FChattr? || f.FEnd? || f.FOpen? || f.FDeselect? || f.FDelete?
  {
    assert [] + [f] == [f] && [FRdattr] + [f] == [FRdattr, f];
  }

  lemma OneMore(st: Stage, pdus: seq<Flag>, s: Scan, f: Flag, response: bool, units: set<N.Unit>)
    requires Reached(st, pdus, s, response, units) && Take(s, f, response, units).Some? && (response || f != FDelete)
    ensures Reached(Onward(st, f), pdus + [f], Take(s, f, response, units).value, response, units)
  {
    TakeLast(s, f, response, units);
    OnwardSpelt(st, f, response);
    hide Take, After, Onward, Spelt, Lawful, Served, Expected;
    if st.Begun? || st.Nothing? {
      FirstTwo(st, f, response);
    } else {
      LaterOnes(st, f, response);
    }
  }

  lemma FirstTwo(st: Stage, f: Flag, response: bool)
    requires f in Expected(st, response)
    ensures st.Nothing? ==> f == FBegin
    ensures st.Begun? ==> f == FSelect || f == FCreate || f == FClose
  {
  }

  lemma LaterOnes(st: Stage, f: Flag, response: bool)
    requires HasHead(st) && Lawful(st, response) && f in Expected(st, response)
    ensures f != FSelect && f != FCreate
  {
    if st.Headed? {
      AttrsOnward(st.head, st.attrs, f, response);
    }
  }

  /** Every sequence the automaton has not refused is at some stage. */
  lemma {:induction false} StageOf(pdus: seq<Flag>, response: bool, units: set<N.Unit>) returns (st: Stage)
    requires TakeAll(First(), pdus, response, units).Some? && (response || FDelete !in pdus)
    ensures Reached(st, pdus, TakeAll(First(), pdus, response, units).value, response, units)
  {
    if pdus == [] {
      st := Nothing;
    } else {
      var n := |pdus| - 1;
      var before := StageOf(pdus[..n], response, units);
      hide Take, Reached;
      var s := TakeAll(First(), pdus[..n], response, units).value;
      OneMore(before, pdus[..n], s, pdus[n], response, units);
      assert pdus[..n] + [pdus[n]] == pdus;
      st := Onward(before, pdus[n]);
    }
  }

  /** The automaton has taken what is spelt and stands there. */
  ghost predicate On(st: Stage, response: bool, units: set<N.Unit>) {
    TakeAll(First(), Spelt(st), response, units).Some?
    && Reached(st, Spelt(st), TakeAll(First(), Spelt(st), response, units).value, response, units)
  }

  /** What may come next, comes. */
  lemma Further(st: Stage, f: Flag, response: bool, units: set<N.Unit>)
    requires On(st, response, units) && N.Grouping in units
    requires f in Expected(st, response) && Served(f, units) && (response || f != FDelete)
    ensures On(Onward(st, f), response, units)
  {
    var pdus := Spelt(st);
    var s := TakeAll(First(), pdus, response, units).value;
    assert (pdus + [f])[..|pdus|] == pdus;
    TakeLast(s, f, response, units);
    OnwardSpelt(st, f, response);
    hide Take;
    assert TakeAll(First(), pdus + [f], response, units) == Take(s, f, response, units);
    hide TakeAll, Spelt, Expected, Onward;
    OneMore(st, pdus, s, f, response, units);
  }

  lemma HeadAccepted(head: Flag, response: bool, units: set<N.Unit>)
    requires head.FSelect? || head.FCreate? || head.FClose?
    requires Served(head, units) && N.Grouping in units
    ensures On(Headed(head, []), response, units)
  {
    assert On(Nothing, response, units);
    hide On;
    Further(Nothing, FBegin, response, units);
    Further(Begun, head, response, units);
  }

  lemma {:induction false} AttrsAccepted(head: Flag, attrs: seq<Flag>, response: bool, units: set<N.Unit>)
    requires head.FSelect? || head.FCreate? || head.FClose?
    requires Attributes(attrs) && Served(head, units) && N.Grouping in units
    requires forall f :: f in attrs ==> Served(f, units)
    ensures On(Headed(head, attrs), response, units)
  {
    hide *;
    if attrs == [] {
      HeadAccepted(head, response, units);
    } else {
      var n := |attrs| - 1;
      assert attrs[n] in attrs;
      NextAttribute(head, attrs, response);
      AttrsAccepted(head, attrs[..n], response, units);
      Further(Headed(head, attrs[..n]), attrs[n], response, units);
    }
  }

  lemma NextAttribute(head: Flag, attrs: seq<Flag>, response: bool)
    requires head.FSelect? || head.FCreate? || head.FClose?
    requires Attributes(attrs) && attrs != []
    ensures var n := |attrs| - 1;
            Attributes(attrs[..n]) && attrs[n] in Expected(Headed(head, attrs[..n]), response)
            && Onward(Headed(head, attrs[..n]), attrs[n]) == Headed(head, attrs) && attrs[n] != FDelete
  {
    var n := |attrs| - 1;
    assert attrs[..n] + [attrs[n]] == attrs;
    if n == 0 {
      assert attrs[..n] == [];
    } else {
      assert attrs[..n] == [FRdattr];
    }
  }

  /** Every sequence of the language is taken. */
  lemma Accepted(head: Flag, attrs: seq<Flag>, tail: seq<Flag>, response: bool, units: set<N.Unit>)
    requires Sequence(head, attrs, tail, response)
    requires var pdus := [FBegin, head] + attrs + tail + [FEnd];
             (forall f :: f in pdus ==> Served(f, units)) && (response || FDelete !in pdus)
    ensures Scanned([FBegin, head] + attrs + tail + [FEnd], response, units).Some?
  {
    Members(head, attrs, tail);
    assert Served(FBegin, units);
    hide On;
    AttrsAccepted(head, attrs, response, units);
    TailAccepted(head, attrs, tail, response, units);
    var st := Ended(head, attrs, tail);
    OnScanned(st, response, units);
  }

  lemma TailAccepted(head: Flag, attrs: seq<Flag>, tail: seq<Flag>, response: bool, units: set<N.Unit>)
    requires Sequence(head, attrs, tail, response) && On(Headed(head, attrs), response, units)
    requires N.Grouping in units && (forall f :: f in tail ==> Served(f, units)) && (response || FDelete !in tail)
    ensures On(Ended(head, attrs, tail), response, units)
  {
    hide On;
    if tail != [] {
      assert tail == [tail[0]];
      TailExpected(head, attrs, tail[0], response);
      Further(Headed(head, attrs), tail[0], response, units);
      Further(Tailed(head, attrs, tail[0]), FEnd, response, units);
    } else {
      Further(Headed(head, attrs), FEnd, response, units);
    }
  }

  lemma TailExpected(head: Flag, attrs: seq<Flag>, f: Flag, response: bool)
    requires Sequence(head, attrs, [f], response)
    ensures f in Expected(Headed(head, attrs), response) && Onward(Headed(head, attrs), f) == Tailed(head, attrs, f)
  {
  }

  lemma OnScanned(st: Stage, response: bool, units: set<N.Unit>)
    requires On(st, response, units)
    ensures Scanned(Spelt(st), response, units).Some? <==> st.Ended?
  {
    hide TakeAll;
    ScannedAt(Spelt(st), st, response, units);
  }

  lemma Members(head: Flag, attrs: seq<Flag>, tail: seq<Flag>)
    ensures var pdus := [FBegin, head] + attrs + tail + [FEnd];
            && FBegin in pdus && head in pdus && FEnd in pdus
            && (forall f :: f in attrs ==> f in pdus) && (forall f :: f in tail ==> f in pdus)
  {
    var pdus := [FBegin, head] + attrs + tail + [FEnd];
    assert pdus[0] == FBegin && pdus[1] == head;
  }

  lemma ScannedAt(pdus: seq<Flag>, st: Stage, response: bool, units: set<N.Unit>)
    requires TakeAll(First(), pdus, response, units).Some?
    requires Reached(st, pdus, TakeAll(First(), pdus, response, units).value, response, units)
    ensures Scanned(pdus, response, units).Some? <==> st.Ended?
  {
    hide TakeAll;
    assert FBegin in {FBegin} && FSelect in {FSelect, FCreate, FClose} && FEnd in {FEnd};
    if st.Headed? {
      assert FDelete in Expected(st, response);
    }
  }

  /** Responses: taken exactly when they are a sequence of the language. Requests: the same,
      if there is no F-DELETE in them. */
  lemma ScanLanguage(pdus: seq<Flag>, response: bool, units: set<N.Unit>)
    requires response || FDelete !in pdus
    ensures Scanned(pdus, response, units).Some? <==> InLanguage(pdus, response, units)
    ensures Scanned(pdus, response, units).Some?
            ==> forall f :: f in Scanned(pdus, response, units).value <==> f in pdus
  {
    hide Take, TakeAll, Served, Expected, Onward;
    if TakeAll(First(), pdus, response, units).Some? {
      var st := StageOf(pdus, response, units);
      ScannedAt(pdus, st, response, units);
    }
    if InLanguage(pdus, response, units) {
      var head, attrs, tail :|
        pdus == [FBegin, head] + attrs + tail + [FEnd] && Sequence(head, attrs, tail, response);
      Accepted(head, attrs, tail, response, units);
    }
  }

  /** An F-DELETE request is taken wherever it comes, and nothing but F-END-GROUP after it. */
  lemma DeleteUnchecked(pdus: seq<Flag>, f: Flag, units: set<N.Unit>)
    requires TakeAll(First(), pdus, false, units).Some? && N.Limited in units
    ensures TakeAll(First(), pdus + [FDelete], false, units).Some?
    ensures TakeAll(First(), pdus + [FDelete, f], false, units).Some?
            <==> f == FDelete || (f == FEnd && N.Grouping in units)
  {
    var p, q := pdus + [FDelete], pdus + [FDelete, f];
    assert p[..|pdus|] == pdus && q[..|p|] == p;
  }

  // ---------------------------------------------------------------- groups taken

  /** The group is in order for the responder: a legal sequence of this kind, counted, for its
      class and its units, where such a group starts. */
  ghost predicate Welcome(r: A.Peer, q: Request, kind: Group) {
    !r.init && LegalPdus(Emit(q.flags), kind) && q.threshold == |Emit(q.flags)| - 2 && D.Suits(r.service, kind)
    && (forall f :: f in q.flags ==> Served(f, r.units))
    && if kind.Finish? then r.state.DataIdle? else r.state.Initialized?
  }

  /** A responder takes exactly these grouped requests, whatever was meant by them, and waits
      for its user to answer that kind of group; but for groups in which F-DELETE is out of
      its place. */
  lemma AskTakenExactly(r: A.Peer, meant: Group, q: Request)
    requires FDelete in q.flags ==> exists kind :: LegalPdus(Emit(q.flags), kind)
    ensures A.Receive(r, A.Ask(meant, q)).Takes? <==> exists kind :: Welcome(r, q, kind)
    ensures forall kind :: Welcome(r, q, kind) ==>
              A.Receive(r, A.Ask(meant, q)) == A.Takes(r.(state := Waiting(kind), group := q.flags))
  {
    if kind :| Shape(q.flags, kind) {
      ShapeExact(q.flags, kind);
      KindOnly(q.flags, kind);
      LegalAsk(r, meant, q, kind);
    } else {
      forall kind
        ensures !LegalPdus(Emit(q.flags), kind)
      {
        ShapeExact(q.flags, kind);
      }
      Shapeless(q.flags, r.units);
      hide Scanned, Emit, LegalPdus;
    }
  }

  /** A group has one kind. */
  lemma KindOnly(flags: set<Flag>, kind: Group)
    requires Shape(flags, kind)
    ensures forall k :: LegalPdus(Emit(flags), k) ==> k == kind
  {
    forall k | LegalPdus(Emit(flags), k)
      ensures k == kind
    {
      ShapeExact(flags, k);
      hide LegalPdus, Emit;
    }
  }

  lemma LegalAsk(r: A.Peer, meant: Group, q: Request, kind: Group)
    requires Shape(q.flags, kind) && LegalPdus(Emit(q.flags), kind)
    ensures A.Receive(r, A.Ask(meant, q))
         == if Welcome(r, q, kind) then A.Takes(r.(state := Waiting(kind), group := q.flags)) else A.Loses
  {
    RequestRead(A.Plain(r, r.units), r.service, r.units, q.flags, kind);
    LegalSequence(q.flags, kind);
    D.ClassSuits(r.service, kind);
    D.UnitsServe(q.flags, r.units);
    hide Scanned, Emit, LegalPdus, Shape, ClassAllows, UnitsAllow, Served, D.Suits, Classify;
  }

  lemma Shapeless(flags: set<Flag>, units: set<N.Unit>)
    requires FDelete !in flags && forall kind :: !LegalPdus(Emit(flags), kind)
    ensures Scanned(Emit(flags), false, units).None?
  {
    EmitMembers(flags);
    hide Emit, LegalPdus, InLanguage, Scanned;
    ScanLanguage(Emit(flags), false, units);
    if InLanguage(Emit(flags), false, units) {
      var kind := LegalRequest(Emit(flags), units);
    }
  }

  lemma LegalRequest(pdus: seq<Flag>, units: set<N.Unit>) returns (kind: Group)
    requires InLanguage(pdus, false, units)
    ensures LegalPdus(pdus, kind)
  {
    var head, attrs, tail :| pdus == [FBegin, head] + attrs + tail + [FEnd] && Sequence(head, attrs, tail, false);
    kind := if head.FClose? then Finish else if tail == [FOpen] then Begin else Manage;
    assert tail == [tail[0]];
    assert LegalParts(head, attrs, tail[0], kind);
    hide LegalParts, Served, Sequence, Attributes;
    assert pdus == [FBegin, head] + attrs + [tail[0], FEnd];
  }

  /** A response is taken only by an initiator that waits for one, and only if it is a
      sequence of the language with nothing in it that was not asked for. */
  lemma StrayReply(i: A.Peer, meant: Group, g: Reply)
    requires A.Receive(i, A.Reply(meant, g)).Takes?
    ensures i.init && (i.state.Management? || i.state.BulkBegin? || i.state.BulkEnd?)
    ensures Cut(g) <= i.group && InLanguage(Emit(Cut(g)), true, i.units)
  {
    EmitMembers(Cut(g));
    ScanLanguage(Emit(Cut(g)), true, i.units);
    hide Emit, Scanned, InLanguage, Cut;
  }

  /** What is left of an answer to a group: all of it, or nothing but the brackets and the
      select or create when that failed. */
  lemma CutMeans(group: set<Flag>, kind: Group, g: Reply)
    requires Shape(group, kind) && g.flags <= group && HeadOf(group) in g.flags
    ensures Cut(g) == if kind.Finish? || g.headOk then g.flags else g.flags * {FBegin, HeadOf(group), FEnd}
  {
  }
}
