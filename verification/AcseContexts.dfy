/** The presentation context ACSE needs for itself (clause 7.1 of ITU-T X.227): added to the
    caller's list for the connect request, recognised by the responder, stripped from the
    confirmation (acsap/acsapinitiat.c, acsap/acsaprespond.c). */
module AcseContexts {
  import opened Options

  /** Object identifiers are compared for equality only. */
  type Oid = nat

  const PC_ACCEPT := -1
  const PC_REJECTED := 0
  const NPCTX := 10

  /** struct PSAPcontext. */
  datatype Context = Context(id: int, asn: Oid, result: int)

  /** The identifier AcAssocRequestAux chooses: two past each identifier it does not exceed. */
  function FreshId(list: seq<Context>): int {
    if list == [] then 1
    else
      var ctx := FreshId(list[..|list| - 1]);
      if ctx <= list[|list| - 1].id then list[|list| - 1].id + 2 else ctx
  }

  /** The chosen identifier exceeds every one in the list, and is odd if they all are; it is
      1 or two past one of them. */
  lemma {:induction false} FreshIdIsNew(list: seq<Context>)
    ensures forall c :: c in list ==> c.id < FreshId(list)
    ensures FreshId(list) == 1 || exists c :: c in list && FreshId(list) == c.id + 2
    ensures (forall c :: c in list ==> c.id % 2 == 1) ==> FreshId(list) % 2 == 1
  {
    if list != [] {
      var front := list[..|list| - 1];
      FreshIdIsNew(front);
      assert list == front + [list[|list| - 1]];
    }
  }

  /** Position of the first context with this abstract syntax, or the length. */
  function FindAsn(list: seq<Context>, asn: Oid): (k: nat)
    ensures k <= |list|
    ensures k < |list| ==> list[k].asn == asn
    ensures forall h :: 0 <= h < k ==> list[h].asn != asn
  {
    if list == [] || list[0].asn == asn then 0 else 1 + FindAsn(list[1..], asn)
  }

  /** What goes into the connect request: the list, ACSE's identifier, and its offset, which
      is negative when the context was added. */
  datatype Offered = Offered(list: seq<Context>, id: int, offset: int)

  function Offering(list: seq<Context>, acse: Oid): Offered {
    var k := FindAsn(list, acse);
    if k < |list| then Offered(list, list[k].id, k)
    else Offered(list + [Context(FreshId(list), acse, PC_ACCEPT)], FreshId(list), -1)
  }

  /** The caller's struct PSAPctxlist. */
  class ContextList {
    var ctx: seq<Context>

    constructor (ctx: seq<Context>)
      ensures this.ctx == ctx
    {
      this.ctx := ctx;
    }
  }

  /** The context part of AcAssocRequestAux: the caller's list is extended for the connect
      request and is as it was when the call returns. */
  method AssocRequest(l: ContextList, acse: Oid) returns (sent: Option<Offered>)
    modifies l
    ensures l.ctx == old(l.ctx)
    ensures sent == if |old(l.ctx)| >= NPCTX then None else Some(Offering(old(l.ctx), acse))
  {
    if |l.ctx| >= NPCTX {
      return None;
    }
    var ctx := 1;
    var k := 0;
    while k < |l.ctx| && l.ctx[k].asn != acse
      invariant 0 <= k <= |l.ctx| && l.ctx == old(l.ctx)
      invariant ctx == FreshId(l.ctx[..k])
      invariant forall h :: 0 <= h < k ==> l.ctx[h].asn != acse
    {
      assert l.ctx[..k + 1][..k] == l.ctx[..k];
      if ctx <= l.ctx[k].id {
        ctx := l.ctx[k].id + 2;
      }
      k := k + 1;
    }
    if k < |l.ctx| {
      return Some(Offered(l.ctx, l.ctx[k].id, k));
    }
    assert l.ctx[..k] == l.ctx;
    l.ctx := l.ctx + [Context(ctx, acse, PC_ACCEPT)];
    sent := Some(Offered(l.ctx, ctx, -1));
    l.ctx := l.ctx[..|l.ctx| - 1];
  }

  /** The scan of AcInit for the context the request came in on; None is a protocol error. */
  function Recognise(list: seq<Context>, ctx: int, acse: Oid): Option<int> {
    if (exists c :: c in list && c.id == ctx)
       && (forall c :: c in list && c.id == ctx ==> c.asn == acse && c.result == PC_ACCEPT)
    then Some(ctx) else None
  }

  method AcInitScan(list: seq<Context>, ctx: int, acse: Oid) returns (id: Option<int>)
    ensures id == Recognise(list, ctx, acse)
  {
    id := None;
    for k := 0 to |list|
      invariant id.Some? <==> exists c :: c in list[..k] && c.id == ctx
      invariant id.Some? ==> id.value == ctx
      invariant forall c :: c in list[..k] && c.id == ctx ==> c.asn == acse && c.result == PC_ACCEPT
    {
      assert list[..k + 1] == list[..k] + [list[k]];
      if list[k].id == ctx {
        assert list[k] in list;
        if list[k].asn != acse || list[k].result != PC_ACCEPT {
          return None;
        }
        assert list[k] in list[..k + 1];
        id := Some(ctx);
      }
    }
    assert list[..|list|] == list;
  }

  /** The same contexts with the results the peer's provider gave them. */
  ghost predicate Answers(list: seq<Context>, got: seq<Context>) {
    |got| == |list|
    && forall k :: 0 <= k < |list| ==> got[k].id == list[k].id && got[k].asn == list[k].asn
  }

  /** AcAsynRetryAux: the confirmed list without ACSE's own context; None is a protocol error. */
  function Strip(got: seq<Context>, o: Offered): Option<seq<Context>> {
    var i := if o.offset < 0 then |got| - 1 else o.offset;
    if !(0 <= i < |got|) || got[i].id != o.id || got[i].result != PC_ACCEPT then None
    else if o.offset < 0 then Some(got[..|got| - 1]) else Some(got)
  }

  ghost predicate DistinctIds(list: seq<Context>) {
    forall i, j :: 0 <= i < j < |list| ==> list[i].id != list[j].id
  }

  /** End to end: for a caller's list with distinct identifiers and any answer that accepts
      the ACSE context, the responder takes the initiator's identifier for ACSE, and the
      initiator's caller gets back its own contexts, in order, with their results. */
  lemma AcseRoundTrip(list: seq<Context>, acse: Oid, got: seq<Context>)
    requires DistinctIds(list)
    requires Answers(Offering(list, acse).list, got)
    requires forall c :: c in got && c.id == Offering(list, acse).id ==> c.result == PC_ACCEPT
    ensures DistinctIds(Offering(list, acse).list)
    ensures Recognise(got, Offering(list, acse).id, acse) == Some(Offering(list, acse).id)
    ensures Strip(got, Offering(list, acse)) == Some(got[..|list|])
    ensures Answers(list, got[..|list|])
  {
    var o := Offering(list, acse);
    var k := OfferedAt(list, acse);
    hide Offering, FreshId, FindAsn;
    assert got[k] in got;
    forall c | c in got && c.id == o.id
      ensures c.asn == acse
    {
      var h :| 0 <= h < |got| && got[h] == c;
      assert h == k;
    }
    assert o.offset >= 0 ==> got[..|list|] == got;
  }

  /** Where the list that goes out has its context for ACSE. */
  lemma OfferedAt(list: seq<Context>, acse: Oid) returns (k: nat)
    requires DistinctIds(list)
    ensures var o := Offering(list, acse);
            && k < |o.list| && o.list[k].id == o.id && o.list[k].asn == acse && DistinctIds(o.list)
            && |list| <= |o.list| && o.list[..|list|] == list
            && (if o.offset < 0 then k == |list| && |o.list| == |list| + 1 else k == o.offset && o.list == list)
  {
    FreshIdIsNew(list);
    var o := Offering(list, acse);
    k := if o.offset < 0 then |list| else o.offset;
  }

  /** What the connect request carries: a context the caller proposes for ACSE itself is used,
      the first of several, and nothing is added; otherwise one is added behind the caller's. */
  lemma OfferingReuses(list: seq<Context>, acse: Oid)
    ensures var o := Offering(list, acse);
            if exists c :: c in list && c.asn == acse then
              o.list == list && 0 <= o.offset < |list| && list[o.offset].asn == acse && list[o.offset].id == o.id
              && forall h :: 0 <= h < o.offset ==> list[h].asn != acse
            else
              o.offset < 0 && o.list == list + [Context(o.id, acse, PC_ACCEPT)]
              && forall c :: c in list ==> c.id < o.id
  {
    FreshIdIsNew(list);
    var k := FindAsn(list, acse);
    if k < |list| {
      assert list[k] in list;
    }
  }

  /** A request on a context that is not ACSE's, or was not accepted, or that nobody proposed
      is a protocol error at the responder. */
  lemma OthersRefused(list: seq<Context>, ctx: int, acse: Oid)
    ensures (forall c :: c in list ==> c.id != ctx) ==> Recognise(list, ctx, acse).None?
    ensures forall c :: c in list && c.id == ctx && (c.asn != acse || c.result != PC_ACCEPT)
                        ==> Recognise(list, ctx, acse).None?
  {
  }

  /** When the context of ACSE is rejected, or the confirmation lists another one in its
      place, both ends report a protocol error. */
  lemma RejectionLoses(list: seq<Context>, acse: Oid, got: seq<Context>, c: Context)
    requires DistinctIds(list) && Answers(Offering(list, acse).list, got)
    requires c in got && c.id == Offering(list, acse).id && c.result != PC_ACCEPT
    ensures Recognise(got, c.id, acse).None? && Strip(got, Offering(list, acse)).None?
  {
    FreshIdIsNew(list);
    OfferingReuses(list, acse);
    var o := Offering(list, acse);
    var k := if o.offset < 0 then |list| else o.offset;
    assert o.list[k].id == o.id;
    var h :| 0 <= h < |got| && got[h] == c;
    assert h == k;
  }
}
