/** F-INITIALIZE (ISO 8571-3, 8571-4): what the initiator may offer, what the responder makes
    of it and answers, and what the initiator makes of the answer (ftam/ftaminitiate.c,
    ftam/ftamrespond.c, ftam/ftambits.c).  A mask of distinct bits is a set of flags. */
module FtamNegotiation {
  import opened Options

  // The flags of h/ftam.h.
  datatype Class = Unconstrained | Managing | Transferring | TransferManage | Accessing
  datatype Unit = Read | Write | FileAccess | Limited | Enhanced | Grouping | FaduLock | Recovery | Restart
  datatype Attr = Storage | Security | Private

  const SUPPORTED: set<Class> := {Transferring, TransferManage, Managing, Accessing}
  const MY_FUNIT: set<Unit> := {Read, Write, FileAccess, Limited, Enhanced, Grouping, FaduLock}
  const MY_FATTR: set<Attr> := {Storage, Security}
  const MY_FQOS := 0

  /** FUNITS_TRANSFER and its companions (h/fpkt.h). */
  function Mandatory(service: Class): set<Unit> {
    match service
    case Transferring => {Grouping}
    case Accessing => {Read, Write, FileAccess}
    case Managing => {Limited, Grouping}
    case TransferManage => {Limited, Grouping}
    case Unconstrained => {}
  }

  // ---------------------------------------------------------------- bit strings

  /** struct pair: a flag and its bit in the ASN.1 BIT STRING. */
  datatype Pair<T> = Pair(flag: T, bit: nat)

  ghost predicate Table<T>(pairs: seq<Pair<T>>) {
    (forall i, j :: 0 <= i < j < |pairs| ==> pairs[i].bit != pairs[j].bit)
    && (forall i, j :: 0 <= i < j < |pairs| ==> pairs[i].flag != pairs[j].flag)
  }

  function Known<T(==)>(pairs: seq<Pair<T>>): set<T> {
    set p | p in pairs :: p.flag
  }

  /** The bits of the string bits2fpm turns on. */
  function Bits2Fpm<T(==)>(pairs: seq<Pair<T>>, actions: set<T>): set<nat> {
    set p | p in pairs && p.flag in actions :: p.bit
  }

  /** The mask fpm2bits gathers. */
  function Gather<T(==)>(pairs: seq<Pair<T>>, fpm: set<nat>): set<T> {
    set p | p in pairs && p.bit in fpm :: p.flag
  }

  /** Encoding and decoding a mask keeps exactly the flags the table knows. */
  lemma FpmRoundTrip<T>(pairs: seq<Pair<T>>, x: set<T>)
    requires Table(pairs)
    ensures Gather(pairs, Bits2Fpm(pairs, x)) == x * Known(pairs)
  {
    forall f | f in x * Known(pairs)
      ensures f in Gather(pairs, Bits2Fpm(pairs, x))
    {
      var p :| p in pairs && p.flag == f;
      assert p.bit in Bits2Fpm(pairs, x);
    }
    forall f | f in Gather(pairs, Bits2Fpm(pairs, x))
      ensures f in x * Known(pairs)
    {
      var p :| p in pairs && p.bit in Bits2Fpm(pairs, x) && p.flag == f;
      var q :| q in pairs && q.flag in x && q.bit == p.bit;
      var i :| 0 <= i < |pairs| && pairs[i] == p;
      var k :| 0 <= k < |pairs| && pairs[k] == q;
      assert i == k;
    }
  }

  /** bits2fpm. */
  method Bits2FpmLoop<T(==)>(pairs: seq<Pair<T>>, actions: set<T>) returns (fpm: set<nat>)
    ensures fpm == Bits2Fpm(pairs, actions)
  {
    fpm := {};
    for k := 0 to |pairs|
      invariant fpm == Bits2Fpm(pairs[..k], actions)
    {
      assert pairs[..k + 1] == pairs[..k] + [pairs[k]];
      if pairs[k].flag in actions {
        fpm := fpm + {pairs[k].bit};
      }
    }
    assert pairs[..|pairs|] == pairs;
  }

  /** fpm2bits: the mask and the number of bits, which is NOTOK when it is zero. */
  method Fpm2BitsLoop<T(==)>(pairs: seq<Pair<T>>, fpm: set<nat>) returns (actions: set<T>, count: nat)
    requires Table(pairs)
    ensures actions == Gather(pairs, fpm) && count == |actions|
  {
    actions := {};
    count := 0;
    for k := 0 to |pairs|
      invariant actions == Gather(pairs[..k], fpm) && count == |actions|
    {
      assert pairs[..k + 1] == pairs[..k] + [pairs[k]];
      if pairs[k].bit in fpm {
        assert pairs[k].flag !in actions;
        actions := actions + {pairs[k].flag};
        count := count + 1;
      }
    }
    assert pairs[..|pairs|] == pairs;
  }

  // fclass_pairs, funit_pairs and fattr_pairs (ftam/ftamprovider.c, ftam/ftam.py).
  const CLASS_PAIRS := [Pair(Unconstrained, 0), Pair(Managing, 1), Pair(Transferring, 2),
                        Pair(TransferManage, 3), Pair(Accessing, 4)]
  const UNIT_PAIRS := [Pair(Read, 2), Pair(Write, 3), Pair(FileAccess, 4), Pair(Limited, 5), Pair(Enhanced, 6),
                       Pair(Grouping, 7), Pair(FaduLock, 8), Pair(Recovery, 9), Pair(Restart, 10)]
  const ATTR_PAIRS := [Pair(Storage, 0), Pair(Security, 1), Pair(Private, 2)]

  lemma UnitTableHolds()
    ensures Table(UNIT_PAIRS)
  {
    var pairs := UNIT_PAIRS;
    assert forall i :: 0 <= i < |pairs| ==> pairs[i].bit == i + 2;
    assert forall i :: 0 <= i < |pairs| ==> UnitBit(pairs[i].flag) == i + 2;
  }

  function UnitBit(u: Unit): nat {
    match u case Read => 2 case Write => 3 case FileAccess => 4 case Limited => 5 case Enhanced => 6
            case Grouping => 7 case FaduLock => 8 case Recovery => 9 case Restart => 10
  }

  lemma TablesHold()
    ensures Table(CLASS_PAIRS) && Table(UNIT_PAIRS) && Table(ATTR_PAIRS)
  {
    UnitTableHolds();
  }

  lemma ClassKnown(f: Class)
    ensures f in Known(CLASS_PAIRS)
  {
    var bit := match f case Unconstrained => 0 case Managing => 1 case Transferring => 2
                       case TransferManage => 3 case Accessing => 4;
    assert CLASS_PAIRS[bit] in CLASS_PAIRS;
  }

  lemma ClassWire(x: set<Class>)
    ensures Gather(CLASS_PAIRS, Bits2Fpm(CLASS_PAIRS, x)) == x
  {
    TablesHold();
    hide Gather, Bits2Fpm, Table, Known;
    FpmRoundTrip(CLASS_PAIRS, x);
    forall f | f in x
      ensures f in Known(CLASS_PAIRS)
    {
      ClassKnown(f);
    }
    assert x * Known(CLASS_PAIRS) == x;
  }

  lemma UnitKnown(f: Unit)
    ensures f in Known(UNIT_PAIRS)
  {
    var bit := match f case Read => 0 case Write => 1 case FileAccess => 2 case Limited => 3 case Enhanced => 4
                       case Grouping => 5 case FaduLock => 6 case Recovery => 7 case Restart => 8;
    assert UNIT_PAIRS[bit] in UNIT_PAIRS;
  }

  lemma UnitWire(x: set<Unit>)
    ensures Gather(UNIT_PAIRS, Bits2Fpm(UNIT_PAIRS, x)) == x
  {
    TablesHold();
    hide Gather, Bits2Fpm, Table, Known;
    FpmRoundTrip(UNIT_PAIRS, x);
    forall f | f in x
      ensures f in Known(UNIT_PAIRS)
    {
      UnitKnown(f);
    }
    assert x * Known(UNIT_PAIRS) == x;
  }

  lemma AttrKnown(f: Attr)
    ensures f in Known(ATTR_PAIRS)
  {
    var bit := match f case Storage => 0 case Security => 1 case Private => 2;
    assert ATTR_PAIRS[bit] in ATTR_PAIRS;
  }

  lemma AttrWire(x: set<Attr>)
    ensures Gather(ATTR_PAIRS, Bits2Fpm(ATTR_PAIRS, x)) == x
  {
    TablesHold();
    hide Gather, Bits2Fpm, Table, Known;
    FpmRoundTrip(ATTR_PAIRS, x);
    forall f | f in x
      ensures f in Known(ATTR_PAIRS)
    {
      AttrKnown(f);
    }
    assert x * Known(ATTR_PAIRS) == x;
  }

  // ---------------------------------------------------------------- the initiator's offer

  datatype Offer = Offer(classes: set<Class>, units: set<Unit>, attrs: set<Attr>)

  /** The guards of FInitializeRequest; the classes are cut to the supported ones. */
  function MakeOffer(manage: bool, classes: set<Class>, units: set<Unit>, attrs: set<Attr>): Option<Offer> {
    if manage || !(units <= MY_FUNIT) then None
    else if Limited !in units && Enhanced in units then None
    else if exists c :: c in classes * SUPPORTED && !(Mandatory(c) <= units) then None
    else if (Transferring in classes || TransferManage in classes) && Read !in units && Write !in units then None
    else if classes * SUPPORTED == {} then None
    else if Grouping !in units then None
    else if !(attrs <= MY_FATTR) then None
    else Some(Offer(classes * SUPPORTED, units, attrs))
  }

  /** F-INITIALIZE-request: an absent class means transfer, absent groups mean none. */
  datatype Request = Request(manage: bool, service: Option<set<nat>>, units: set<nat>, attrs: Option<set<nat>>)

  function MakeRequest(o: Offer): Request {
    Request(false,
            if o.classes == {Transferring} then None else Some(Bits2Fpm(CLASS_PAIRS, o.classes)),
            Bits2Fpm(UNIT_PAIRS, o.units),
            if o.attrs == {} then None else Some(Bits2Fpm(ATTR_PAIRS, o.attrs)))
  }

  // ---------------------------------------------------------------- the responder

  /** The negotiated fields of the responder's block. */
  datatype Responder = Responder(classes: set<Class>, units: set<Unit>, attrs: set<Attr>, management: bool)

  function Conservative(classes: set<Class>): set<Unit> {
    (if Transferring in classes then Mandatory(Transferring) else {})
    + (if TransferManage in classes then Mandatory(TransferManage) else {})
    + (if Accessing in classes then Mandatory(Accessing) else {})
    + (if Managing in classes then Mandatory(Managing) else {})
  }

  /** FInit. */
  function Indication(req: Request, management: bool): Option<Responder> {
    var classes := if req.service.None? then {Transferring} else Gather(CLASS_PAIRS, req.service.value);
    var sent := Gather(UNIT_PAIRS, req.units);
    var units := sent + Conservative(classes);
    var attrs := if req.attrs.None? then {} else Gather(ATTR_PAIRS, req.attrs.value);
    if classes == {} || sent == {} then None
    else if classes * SUPPORTED == {} then None
    else if Limited !in units && Enhanced in units then None
    else if Grouping !in units then None
    else if req.attrs.Some? && attrs == {} then None
    else Some(Responder(classes * SUPPORTED, units, attrs, req.manage && management))
  }

  /** F-INITIALIZE-response for a success. */
  datatype Response = Response(manage: bool, service: Option<set<nat>>, units: set<nat>, attrs: Option<set<nat>>,
                               fqos: int)

  /** The class checks both ends make: something of the mandatory units, read or write for
      the transfer classes, and nothing the class excludes. */
  predicate Sound(service: Class, units: set<Unit>) {
    match service
    case Transferring =>
      units * Mandatory(service) != {} && units * {Read, Write} != {} && units * {FileAccess, FaduLock} == {}
    case TransferManage =>
      units * Mandatory(service) != {} && units * {Read, Write} != {} && units * {FileAccess, FaduLock} == {}
    case Accessing => units * Mandatory(service) != {}
    case Managing =>
      units * Mandatory(service) != {} && units * {Read, Write, FileAccess, FaduLock, Recovery, Restart} == {}
    case Unconstrained => true
  }

  /** The arguments of FInitializeResponse. */
  datatype Answer = Answer(manage: bool, classes: set<Class>, units: set<Unit>, attrs: set<Attr>, fqos: int)

  /** FInitializeResponse: the block afterwards, and the response unless it refused.  A
      refusal can leave the classes or the units already narrowed. */
  function Respond(st: Responder, a: Answer): (Responder, Option<Response>) {
    if a.manage && !st.management then (st, None)
    else
      var st1 := if a.manage then st else st.(management := false);
      var chosen := a.classes * st.classes;
      if |chosen| != 1 || Unconstrained in chosen then (st1, None)
      else
        var st2 := st1.(classes := chosen);
        if !(a.units <= st.units) || (Limited !in a.units && Enhanced in a.units) then (st2, None)
        else
          var st3 := st2.(units := a.units);
          if !Sound(Only(chosen), a.units) || !(a.attrs <= st.attrs) then (st3, None)
          else
            var st4 := st3.(attrs := a.attrs);
            if a.fqos != MY_FQOS then (st4, None) else (st4, Some(MakeResponse(st4, a.manage)))
  }

  function MakeResponse(st: Responder, manage: bool): Response {
    Response(manage,
             if st.classes == {Transferring} then None else Some(Bits2Fpm(CLASS_PAIRS, st.classes)),
             Bits2Fpm(UNIT_PAIRS, st.units),
             if st.attrs == {} then None else Some(Bits2Fpm(ATTR_PAIRS, st.attrs)),
             MY_FQOS)
  }

  /** The switch on a one-bit mask. */
  function Only(s: set<Class>): Class {
    if Transferring in s then Transferring else if Accessing in s then Accessing
    else if Managing in s then Managing else if TransferManage in s then TransferManage else Unconstrained
  }

  lemma OnlyOne(s: set<Class>)
    requires |s| == 1
    ensures s == {Only(s)}
  {
    var x :| x in s;
    assert s == {x} by {
      assert |s - {x}| == 0;
      assert s - {x} == {};
    }
    assert Only({x}) == x;
  }

  /** The responder's struct ftamblk, as FInit and FInitializeResponse fill it in. */
  class ResponderBlock {
    var classes: set<Class>
    var units: set<Unit>
    var attrs: set<Attr>
    var management: bool

    constructor ()
      ensures View() == Responder({}, {}, {}, false)
    {
      classes, units, attrs, management := {}, {}, {}, false;
    }

    function View(): Responder
      reads this
    {
      Responder(classes, units, attrs, management)
    }

    /** FInit; a refusal frees the block. */
    method Init(req: Request, offered: bool) returns (ok: bool)
      modifies this
      ensures ok == Indication(req, offered).Some?
      ensures ok ==> View() == Indication(req, offered).value
    {
      hide Gather, Table, Conservative;
      TablesHold();
      management := req.manage && offered;
      if req.service.Some? {
        var c, n := Fpm2BitsLoop(CLASS_PAIRS, req.service.value);
        if n == 0 {
          return false;
        }
        classes := c;
      } else {
        classes := {Transferring};
      }
      var u, n := Fpm2BitsLoop(UNIT_PAIRS, req.units);
      if n == 0 {
        return false;
      }
      units := u + Conservative(classes);
      classes := classes * SUPPORTED;
      if classes == {} || (Limited !in units && Enhanced in units) || Grouping !in units {
        return false;
      }
      attrs := {};
      if req.attrs.Some? {
        var g, k := Fpm2BitsLoop(ATTR_PAIRS, req.attrs.value);
        if k == 0 {
          return false;
        }
        attrs := g;
      }
      ok := true;
    }

    /** FInitializeResponse; a refusal keeps what was assigned before it. */
    method Answering(a: Answer) returns (rsp: Option<Response>)
      modifies this
      ensures View() == Respond(old(View()), a).0 && rsp == Respond(old(View()), a).1
    {
      if a.manage {
        if !management {
          return None;
        }
      } else {
        management := false;
      }
      if |a.classes * classes| != 1 || Unconstrained in a.classes * classes {
        return None;
      }
      classes := a.classes * classes;
      if !(a.units <= units) || (Limited !in a.units && Enhanced in a.units) {
        return None;
      }
      units := a.units;
      if !Sound(Only(classes), units) || !(a.attrs <= attrs) {
        return None;
      }
      attrs := a.attrs;
      if a.fqos != MY_FQOS {
        return None;
      }
      rsp := Some(MakeResponse(View(), a.manage));
    }
  }

  // ---------------------------------------------------------------- the initiator's confirm

  datatype Agreed = Agreed(service: Class, units: set<Unit>, attrs: set<Attr>)

  /** The ACS_ACCEPT branch of FInitializeRequestAux, for an initiator that offered no
      presentation-context management; None is a protocol error. */
  function Confirm(o: Offer, rsp: Response): Option<Agreed> {
    var got := if rsp.service.None? then {Transferring} else Gather(CLASS_PAIRS, rsp.service.value);
    var sent := Gather(UNIT_PAIRS, rsp.units);
    var attrs := if rsp.attrs.None? then {} else Gather(ATTR_PAIRS, rsp.attrs.value);
    if rsp.manage || |got| != 1 || |got * o.classes| != 1 then None
    else
      var service := Only(got * o.classes);
      var units := sent + Mandatory(service);
      if sent == {} || !(units <= o.units) || !Sound(service, units) then None
      else if (rsp.attrs.Some? && attrs == {}) || !(attrs <= o.attrs) || rsp.fqos != MY_FQOS then None
      else Some(Agreed(service, units, attrs))
  }

  // ---------------------------------------------------------------- what is agreed

  /** Everything the responder still holds was offered. */
  predicate Within(st: Responder, o: Offer) {
    st.classes <= o.classes && st.units <= o.units && st.attrs <= o.attrs && !st.management
  }

  lemma OfferFacts(manage: bool, classes: set<Class>, units: set<Unit>, attrs: set<Attr>)
    requires MakeOffer(manage, classes, units, attrs).Some?
    ensures var o := MakeOffer(manage, classes, units, attrs).value;
            o.classes != {} && o.classes <= SUPPORTED && Grouping in o.units
            && (forall c :: c in o.classes ==> Mandatory(c) <= o.units)
            && (Limited !in o.units ==> Enhanced !in o.units)
  {
  }

  /** A legal offer is never refused by FInit, and the responder starts from it exactly. */
  lemma IndicationAccepts(manage: bool, classes: set<Class>, units: set<Unit>, attrs: set<Attr>, management: bool)
    requires MakeOffer(manage, classes, units, attrs).Some?
    ensures var o := MakeOffer(manage, classes, units, attrs).value;
            Indication(MakeRequest(o), management) == Some(Responder(o.classes, o.units, o.attrs, false))
  {
    hide Gather, Bits2Fpm;
    OfferFacts(manage, classes, units, attrs);
    var o := MakeOffer(manage, classes, units, attrs).value;
    hide MakeOffer;
    ClassWire(o.classes);
    UnitWire(o.units);
    AttrWire(o.attrs);
    assert o.classes * SUPPORTED == o.classes;
    assert o.units + Conservative(o.classes) == o.units;
  }

  /** Whatever FInitializeResponse does, the responder stays within the offer. */
  lemma RespondStaysWithin(o: Offer, st: Responder, a: Answer)
    requires Within(st, o)
    ensures Within(Respond(st, a).0, o)
  {
  }

  /** The two ends agree: the responder's one class, offered; its attribute groups; its
      units and the mandatory ones of the class, inside the offer; hence the same units
      exactly when the responder kept the mandatory ones. */
  predicate SameTerms(o: Offer, got: Agreed, st: Responder) {
    st.classes == {got.service} && got.service in o.classes
    && got.attrs == st.attrs
    && got.units == st.units + Mandatory(got.service) && got.units <= o.units
    && (got.units == st.units <==> Mandatory(got.service) <= st.units)
  }

  /** Every response the responder produces is one the initiator accepts. */
  lemma Agreement(o: Offer, st: Responder, a: Answer)
    requires o.classes <= SUPPORTED && (forall c :: c in o.classes ==> Mandatory(c) <= o.units)
    requires Within(st, o) && Respond(st, a).1.Some?
    ensures var got := Confirm(o, Respond(st, a).1.value);
            got.Some? && SameTerms(o, got.value, Respond(st, a).0)
  {
    hide Gather, Bits2Fpm, Sound, Mandatory;
    var chosen := a.classes * st.classes;
    var c := Only(chosen);
    OnlyOne(chosen);
    ClassWire(chosen);
    UnitWire(a.units);
    AttrWire(a.attrs);
    assert chosen * o.classes == {c};
    assert c in chosen && c in o.classes;
    assert Only({c}) == c;
    SoundWithMandatory(c, a.units);
  }

  lemma SoundWithMandatory(c: Class, units: set<Unit>)
    requires c in SUPPORTED && Sound(c, units)
    ensures units != {} && Sound(c, units + Mandatory(c))
  {
  }

  function RespondAll(st: Responder, answers: seq<Answer>): Responder {
    if answers == [] then st
    else Respond(RespondAll(st, answers[..|answers| - 1]), answers[|answers| - 1]).0
  }

  lemma {:induction false} RespondAllStaysWithin(o: Offer, st: Responder, answers: seq<Answer>)
    requires Within(st, o)
    ensures Within(RespondAll(st, answers), o)
  {
    if answers != [] {
      var front := answers[..|answers| - 1];
      RespondAllStaysWithin(o, st, front);
      RespondStaysWithin(o, RespondAll(st, front), answers[|answers| - 1]);
    }
  }

  /** End to end, for every offer the guards allow and after any number of refused answers:
      the first answer FInitializeResponse lets through is one the initiator accepts, on
      the same terms. */
  lemma EndToEnd(manage: bool, classes: set<Class>, units: set<Unit>, attrs: set<Attr>, management: bool,
                 refused: seq<Answer>, a: Answer)
    requires MakeOffer(manage, classes, units, attrs).Some?
    ensures var o := MakeOffer(manage, classes, units, attrs).value;
            var start := Indication(MakeRequest(o), management);
            start.Some?
            && var (after, rsp) := Respond(RespondAll(start.value, refused), a);
            rsp.Some? ==> Confirm(o, rsp.value).Some? && SameTerms(o, Confirm(o, rsp.value).value, after)
  {
    hide MakeOffer, MakeRequest, Indication, Confirm, Respond, SameTerms;
    var o := MakeOffer(manage, classes, units, attrs).value;
    OfferFacts(manage, classes, units, attrs);
    IndicationAccepts(manage, classes, units, attrs, management);
    var start := Indication(MakeRequest(o), management).value;
    RespondAllStaysWithin(o, start, refused);
    var st := RespondAll(start, refused);
    if Respond(st, a).1.Some? {
      Agreement(o, st, a);
    }
  }

  /** The responder's check asks for some mandatory unit, not all: it may drop limited file
      management from transfer-and-management, and the initiator then holds a unit more. */
  lemma UnitsCanDiffer()
    ensures var o := Offer({TransferManage}, {Read, Limited, Grouping}, {});
            MakeOffer(false, o.classes, o.units, o.attrs) == Some(o)
            && var st := Responder(o.classes, o.units, o.attrs, false);
            Indication(MakeRequest(o), false) == Some(st)
            && var (after, rsp) := Respond(st, Answer(false, o.classes, {Read, Grouping}, {}, MY_FQOS));
            rsp.Some? && Confirm(o, rsp.value).Some? && Confirm(o, rsp.value).value.units != after.units
  {
    hide Gather, Bits2Fpm, Confirm, Indication;
    var units := {Read, Limited, Grouping};
    var o := Offer({TransferManage}, units, {});
    assert {TransferManage} * SUPPORTED == {TransferManage};
    IndicationAccepts(false, {TransferManage}, units, {}, false);
    var st := Responder(o.classes, o.units, o.attrs, false);
    var a := Answer(false, o.classes, {Read, Grouping}, {}, MY_FQOS);
    assert a.classes * st.classes == {TransferManage};
    assert Sound(TransferManage, a.units) by {
      assert Grouping in a.units * Mandatory(TransferManage);
      assert Read in a.units * {Read, Write};
    }
    Agreement(o, st, a);
    assert Limited !in Respond(st, a).0.units;
  }

  // ---------------------------------------------------------------- the terms, told by themselves

  /** The offers ISODE makes: grouping always, no recovery or restart, no private attributes,
      some class it supports; read or write for transfer; limited file management wherever
      files are managed; all of read, write and file access for access; and no enhanced
      without limited file management. */
  predicate Offerable(classes: set<Class>, units: set<Unit>, attrs: set<Attr>) {
    && Grouping in units && Recovery !in units && Restart !in units && Private !in attrs
    && (exists c :: c in classes && !c.Unconstrained?)
    && (Transferring in classes || TransferManage in classes ==> Read in units || Write in units)
    && (TransferManage in classes || Managing in classes ==> Limited in units)
    && (Accessing in classes ==> Read in units && Write in units && FileAccess in units)
    && (Enhanced in units ==> Limited in units)
  }

  /** FInitializeRequest lets exactly these offers through, without presentation-context
      management, and drops the unconstrained class from them. */
  lemma OfferLaw(manage: bool, classes: set<Class>, units: set<Unit>, attrs: set<Attr>)
    ensures MakeOffer(manage, classes, units, attrs).Some? <==> !manage && Offerable(classes, units, attrs)
    ensures MakeOffer(manage, classes, units, attrs).Some? ==>
              var o := MakeOffer(manage, classes, units, attrs).value;
              o.classes == classes - {Unconstrained} && o.units == units && o.attrs == attrs
  {
    assert forall c :: c in SUPPORTED <==> !c.Unconstrained?;
    assert classes * SUPPORTED == classes - {Unconstrained};
    assert forall u :: u in MY_FUNIT <==> !u.Recovery? && !u.Restart?;
    assert forall f :: f in MY_FATTR <==> !f.Private?;
    assert units <= MY_FUNIT <==> Recovery !in units && Restart !in units;
    assert attrs <= MY_FATTR <==> Private !in attrs;
    ShortOfUnits(classes, units);
    hide Mandatory;
    if exists c :: c in classes && !c.Unconstrained? {
      var c :| c in classes && !c.Unconstrained?;
      assert c in classes * SUPPORTED;
    }
  }

  lemma ShortOfUnits(classes: set<Class>, units: set<Unit>)
    ensures (exists c :: c in classes * SUPPORTED && !(Mandatory(c) <= units))
            <==> (Transferring in classes && Grouping !in units)
                 || ((TransferManage in classes || Managing in classes) && !(Limited in units && Grouping in units))
                 || (Accessing in classes && !(Read in units && Write in units && FileAccess in units))
  {
    forall c
      ensures !(Mandatory(c) <= units)
              <==> (c.Transferring? && Grouping !in units)
                   || ((c.TransferManage? || c.Managing?) && !(Limited in units && Grouping in units))
                   || (c.Accessing? && !(Read in units && Write in units && FileAccess in units))
    {
    }
    hide Mandatory;
    var all := classes * SUPPORTED;
    assert forall c :: c in all <==> c in classes && !c.Unconstrained?;
  }

  /** The units an answer may keep in a class: in the transfer classes read or write, and no
      file access or FADU locking; in the access class one of read, write and file access; in
      the management class limited file management or grouping, and nothing for the contents
      of files. */
  predicate Keepable(c: Class, units: set<Unit>) {
    (Enhanced in units ==> Limited in units)
    && match c
       case Transferring => Grouping in units && Transfers(units)
       case TransferManage => (Limited in units || Grouping in units) && Transfers(units)
       case Accessing => Read in units || Write in units || FileAccess in units
       case Managing =>
         (Limited in units || Grouping in units)
         && forall u :: u in units ==> Manages(u)
       case Unconstrained => false
  }

  predicate Manages(u: Unit) {
    u.Limited? || u.Enhanced? || u.Grouping?
  }

  predicate Transfers(units: set<Unit>) {
    (Read in units || Write in units) && FileAccess !in units && FaduLock !in units
  }

  /** What a responder with these terms open may answer: one open class, units and attribute
      groups that are open and fit the class, and the quality of service there is. */
  predicate Acceptable(st: Responder, a: Answer, c: Class) {
    (a.manage ==> st.management) && a.classes * st.classes == {c} && a.units <= st.units && Keepable(c, a.units)
    && a.attrs <= st.attrs && a.fqos == 0
  }

  /** FInitializeResponse lets exactly these answers through; then the responder holds the
      class, the units and the attribute groups of the answer, and so does the initiator, with
      the mandatory units of the class besides. */
  lemma AnswerLaw(o: Offer, st: Responder, a: Answer)
    requires o.classes <= SUPPORTED && (forall c :: c in o.classes ==> Mandatory(c) <= o.units) && Within(st, o)
    ensures Respond(st, a).1.Some? <==> exists c :: Acceptable(st, a, c)
    ensures forall c :: Acceptable(st, a, c) ==>
              Respond(st, a).0 == Responder({c}, a.units, a.attrs, false)
              && Confirm(o, Respond(st, a).1.value) == Some(Agreed(c, a.units + Mandatory(c), a.attrs))
  {
    var chosen := a.classes * st.classes;
    if |chosen| == 1 {
      var c := Only(chosen);
      OnlyOne(chosen);
      assert c in chosen && c in SUPPORTED;
      KeepableSound(c, a.units);
      hide Sound, Keepable, Mandatory;
      assert Respond(st, a).1.Some? ==> Acceptable(st, a, c);
      if Respond(st, a).1.Some? {
        Agreement(o, st, a);
        ConfirmUnits(o, st, a);
      }
    }
    forall c | Acceptable(st, a, c)
      ensures |chosen| == 1 && c == Only(chosen)
    {
      assert chosen == {c} && |{c}| == 1;
      assert Only({c}) == c;
    }
  }

  lemma KeepableSound(c: Class, units: set<Unit>)
    requires c in SUPPORTED
    ensures Keepable(c, units) <==> (Sound(c, units) && (Enhanced in units ==> Limited in units))
  {
    AnyOf(units, Grouping, Grouping);
    AnyOf(units, Read, Write);
    AnyOf(units, FileAccess, FaduLock);
    AnyOf(units, Limited, Grouping);
    assert {Grouping, Grouping} == {Grouping};
    if Read in units || Write in units || FileAccess in units {
      var u := if Read in units then Read else if Write in units then Write else FileAccess;
      assert u in units * {Read, Write, FileAccess};
    }
    if u :| u in units && !Manages(u) {
      assert u in units * {Read, Write, FileAccess, FaduLock, Recovery, Restart};
    }
  }

  lemma AnyOf(units: set<Unit>, u: Unit, v: Unit)
    ensures units * {u, v} != {} <==> u in units || v in units
  {
    if u in units || v in units {
      assert (if u in units then u else v) in units * {u, v};
    }
  }

  lemma ConfirmUnits(o: Offer, st: Responder, a: Answer)
    requires Respond(st, a).1.Some? && Confirm(o, Respond(st, a).1.value).Some?
    ensures var got := Confirm(o, Respond(st, a).1.value).value;
            got.units == a.units + Mandatory(got.service)
  {
    UnitWire(a.units);
    hide Gather, Bits2Fpm, Sound, Mandatory;
  }

  /** The request that carries these classes (none for transfer), units and attribute groups. */
  function Carrying(manage: bool, classes: Option<set<Class>>, units: set<Unit>, attrs: Option<set<Attr>>): Request {
    Request(manage, if classes.None? then None else Some(Bits2Fpm(CLASS_PAIRS, classes.value)),
            Bits2Fpm(UNIT_PAIRS, units), if attrs.None? then None else Some(Bits2Fpm(ATTR_PAIRS, attrs.value)))
  }

  /** The units a responder takes to be there, whatever the request says. */
  predicate Presumed(u: Unit, classes: set<Class>) {
    match u
    case Grouping => Transferring in classes || TransferManage in classes || Managing in classes
    case Limited => TransferManage in classes || Managing in classes
    case Read => Accessing in classes
    case Write => Accessing in classes
    case FileAccess => Accessing in classes
    case _ => false
  }

  /** What FInit makes of a request from any initiator: it needs some unit, a class it
      supports, grouping, limited with enhanced file management, and no empty list of
      attribute groups; and it adds the units a class must have. */
  lemma IndicationLaw(manage: bool, classes: Option<set<Class>>, units: set<Unit>, attrs: Option<set<Attr>>,
                      offered: bool)
    ensures var r := Indication(Carrying(manage, classes, units, attrs), offered);
            var meant := if classes.None? then {Transferring} else classes.value;
            && (r.Some? <==>
                  units != {} && attrs != Some({}) && (exists c :: c in meant && !c.Unconstrained?)
                  && (Grouping in units || Presumed(Grouping, meant))
                  && (Enhanced in units ==> Limited in units || Presumed(Limited, meant)))
            && (r.Some? ==>
                  r.value.classes == meant - {Unconstrained}
                  && (forall u :: u in r.value.units <==> u in units || Presumed(u, meant))
                  && r.value.attrs == (if attrs.None? then {} else attrs.value)
                  && r.value.management == (manage && offered))
  {
    var meant := if classes.None? then {Transferring} else classes.value;
    CarriedIn(manage, classes, units, attrs, offered);
    PresumedUnits(meant);
    SupportedPart(meant);
    hide Indication, Carrying, Conservative, Presumed, SUPPORTED;
  }

  lemma SupportedPart(classes: set<Class>)
    ensures classes * SUPPORTED == classes - {Unconstrained}
    ensures classes * SUPPORTED == {} <==> forall c :: c in classes ==> c.Unconstrained?
  {
    assert forall c :: c in SUPPORTED <==> !c.Unconstrained?;
    if c :| c in classes && !c.Unconstrained? {
      assert c in classes * SUPPORTED;
    }
  }

  lemma CarriedIn(manage: bool, classes: Option<set<Class>>, units: set<Unit>, attrs: Option<set<Attr>>, offered: bool)
    ensures var meant := if classes.None? then {Transferring} else classes.value;
            var all := units + Conservative(meant);
            Indication(Carrying(manage, classes, units, attrs), offered)
            == if meant == {} || units == {} || meant * SUPPORTED == {} || (Limited !in all && Enhanced in all)
                  || Grouping !in all || attrs == Some({})
               then None
               else Some(Responder(meant * SUPPORTED, all, if attrs.None? then {} else attrs.value, manage && offered))
  {
    if classes.Some? {
      ClassWire(classes.value);
    }
    UnitWire(units);
    if attrs.Some? {
      AttrWire(attrs.value);
    }
    hide Gather, Bits2Fpm, Conservative;
  }

  lemma PresumedUnits(classes: set<Class>)
    ensures forall u :: u in Conservative(classes) <==> Presumed(u, classes)
  {
  }

  /** A refused answer can only narrow what is still open. */
  lemma RefusalNarrows(st: Responder, a: Answer)
    ensures var after := Respond(st, a).0;
            && after.classes in {st.classes, a.classes * st.classes} && after.units in {st.units, a.units}
            && after.units <= st.units && after.attrs <= st.attrs
            && after.management == (st.management && a.manage)
  {
  }
}
