/** Negotiation of document types: each offered type gets a presentation context, the
    responder matches types to contexts and says which it accepts, the initiator reads the
    answer back by position (ftam/ftaminitiate.c, ftam/ftamrespond.c). */
module FtamContents {
  import opened Options
  import opened AcseContexts

  /** struct FTAMcontent. */
  datatype Content = Content(dtn: Oid, id: int, result: int)

  // ---------------------------------------------------------------- the offer

  /** The context list of FInitializeRequestAux: FTAM's own context 1, then 3, 5, ... for the
      types; docs is what getisodocumentbytype knows, type to abstract syntax. */
  function OfferContexts(types: seq<Oid>, docs: map<Oid, Oid>, pci: Oid): Option<seq<Context>> {
    if types == [] then Some([Context(1, pci, PC_ACCEPT)])
    else
      var n := |types| - 1;
      var front := OfferContexts(types[..n], docs, pci);
      if front.None? || types[n] !in docs then None
      else Some(front.value + [Context(2 * n + 3, docs[types[n]], PC_ACCEPT)])
  }

  method BuildOffer(types: seq<Oid>, docs: map<Oid, Oid>, pci: Oid) returns (r: Option<seq<Context>>)
    ensures r == OfferContexts(types, docs, pci)
  {
    var list := [Context(1, pci, PC_ACCEPT)];
    var idc := 1;
    for k := 0 to |types|
      invariant idc == 2 * k + 1
      invariant OfferContexts(types[..k], docs, pci) == Some(list)
    {
      assert types[..k + 1][..k] == types[..k];
      if types[k] !in docs {
        UnknownStays(types, k + 1, docs, pci);
        return None;
      }
      idc := idc + 2;
      list := list + [Context(idc, docs[types[k]], PC_ACCEPT)];
    }
    assert types[..|types|] == types;
    r := Some(list);
  }

  lemma {:induction false} UnknownStays(types: seq<Oid>, k: nat, docs: map<Oid, Oid>, pci: Oid)
    requires k <= |types| && OfferContexts(types[..k], docs, pci).None?
    ensures OfferContexts(types, docs, pci).None?
    decreases |types| - k
  {
    if k == |types| {
      assert types[..k] == types;
    } else {
      assert types[..k + 1][..k] == types[..k];
      UnknownStays(types, k + 1, docs, pci);
    }
  }

  /** Position k + 1 of the offer is the context of type k. */
  lemma {:induction false} OfferAt(types: seq<Oid>, docs: map<Oid, Oid>, pci: Oid, k: nat)
    requires OfferContexts(types, docs, pci).Some? && k < |types|
    ensures |OfferContexts(types, docs, pci).value| == |types| + 1
    ensures types[k] in docs
         && OfferContexts(types, docs, pci).value[k + 1] == Context(2 * k + 3, docs[types[k]], PC_ACCEPT)
    ensures OfferContexts(types, docs, pci).value[0] == Context(1, pci, PC_ACCEPT)
  {
    var n := |types| - 1;
    if n > 0 {
      OfferAt(types[..n], docs, pci, if k < n then k else 0);
    } else {
      assert types[..n] == [];
    }
  }

  // ---------------------------------------------------------------- the responder

  /** The first context that is neither FTAM's nor ACSE's and has this abstract syntax. */
  function Match(list: seq<Context>, ftam: int, acse: int, asn: Oid): (k: nat)
    ensures k <= |list|
    ensures k < |list| ==> list[k].id != ftam && list[k].id != acse && list[k].asn == asn
    ensures forall h :: 0 <= h < k ==> list[h].id == ftam || list[h].id == acse || list[h].asn != asn
  {
    if list == [] || (list[0].id != ftam && list[0].id != acse && list[0].asn == asn) then 0
    else 1 + Match(list[1..], ftam, acse, asn)
  }

  /** The contents FInit presents: the known types that have a context. */
  function Present(types: seq<Oid>, docs: map<Oid, Oid>, list: seq<Context>, ftam: int, acse: int): seq<Content> {
    if types == [] then []
    else
      var n := |types| - 1;
      var front := Present(types[..n], docs, list, ftam, acse);
      if types[n] !in docs then front
      else
        var k := Match(list, ftam, acse, docs[types[n]]);
        if k == |list| then front else front + [Content(types[n], list[k].id, list[k].result)]
  }

  method MatchContents(types: seq<Oid>, docs: map<Oid, Oid>, list: seq<Context>, ftam: int, acse: int)
    returns (contents: seq<Content>)
    ensures contents == Present(types, docs, list, ftam, acse)
  {
    contents := [];
    for k := 0 to |types|
      invariant contents == Present(types[..k], docs, list, ftam, acse)
    {
      assert types[..k + 1][..k] == types[..k];
      if types[k] in docs {
        var i := 0;
        while i < |list| && (list[i].id == ftam || list[i].id == acse || list[i].asn != docs[types[k]])
          invariant 0 <= i <= |list|
          invariant forall h :: 0 <= h < i ==> list[h].id == ftam || list[h].id == acse || list[h].asn != docs[types[k]]
        {
          i := i + 1;
        }
        if i < |list| {
          contents := contents + [Content(types[k], list[i].id, list[i].result)];
        }
      }
    }
    assert types[..|types|] == types;
  }

  /** The context results FInit leaves: an accepted context that no type claimed is rejected. */
  function LeaveResults(list: seq<Context>, contents: seq<Content>, ftam: int, acse: int): (r: seq<Context>)
    ensures |r| == |list|
    ensures forall k :: 0 <= k < |list| ==>
              r[k] == if list[k].id != ftam && list[k].id != acse && list[k].result == PC_ACCEPT
                         && !(exists c :: c in contents && c.id == list[k].id)
                      then list[k].(result := PC_REJECTED) else list[k]
  {
    if list == [] then []
    else
      var n := |list| - 1;
      var rest := LeaveResults(list[..n], contents, ftam, acse);
      var claimed := exists c :: c in contents && c.id == list[n].id;
      rest + [if list[n].id != ftam && list[n].id != acse && list[n].result == PC_ACCEPT && !claimed
              then list[n].(result := PC_REJECTED) else list[n]]
  }

  /** FInitializeResponse's check of the caller's verdicts: an accepted content may be kept or
      rejected, any other must be left as it is. */
  predicate Lawful(contents: seq<Content>, verdicts: seq<int>) {
    |verdicts| == |contents| && forall k :: 0 <= k < |contents| ==> LawfulOne(contents[k], verdicts[k])
  }

  predicate LawfulOne(c: Content, verdict: int) {
    if verdict == PC_ACCEPT || verdict == PC_REJECTED then c.result == PC_ACCEPT else verdict == c.result
  }

  function Decide(contents: seq<Content>, verdicts: seq<int>): (r: seq<Content>)
    requires |verdicts| == |contents|
    ensures |r| == |contents|
    ensures forall k :: 0 <= k < |contents| ==> r[k] == contents[k].(result := verdicts[k])
  {
    seq(|contents|, k requires 0 <= k < |contents| => contents[k].(result := verdicts[k]))
  }

  /** FInitializeResponse may be called without verdicts: the contents stay as they are. */
  predicate MayAnswer(contents: seq<Content>, verdicts: Option<seq<int>>) {
    verdicts.Some? ==> Lawful(contents, verdicts.value)
  }

  function Judged(contents: seq<Content>, verdicts: Option<seq<int>>): (r: seq<Content>)
    requires verdicts.Some? ==> |verdicts.value| == |contents|
    ensures |r| == |contents|
  {
    if verdicts.None? then contents else Decide(contents, verdicts.value)
  }

  /** The types the response names: none at all without verdicts. */
  function Named(contents: seq<Content>, verdicts: Option<seq<int>>): set<Oid>
    requires verdicts.Some? ==> |verdicts.value| == |contents|
  {
    if verdicts.None? then {} else Dtns(Accepted(Judged(contents, verdicts)))
  }

  /** The loop over the caller's verdicts; None when one of them is refused. */
  method JudgeContents(contents: seq<Content>, verdicts: Option<seq<int>>) returns (r: Option<seq<Content>>)
    ensures r.Some? <==> MayAnswer(contents, verdicts)
    ensures r.Some? ==> r.value == Judged(contents, verdicts)
  {
    if verdicts.None? {
      return Some(contents);
    }
    if |verdicts.value| != |contents| {
      return None;
    }
    var list := contents;
    for k := 0 to |contents|
      invariant |list| == |contents|
      invariant forall h :: 0 <= h < |contents| ==> list[h] == if h < k then contents[h].(result := verdicts.value[h])
                                                               else contents[h]
      invariant forall h :: 0 <= h < k ==> LawfulOne(contents[h], verdicts.value[h])
    {
      var v := verdicts.value[k];
      if v == PC_ACCEPT || v == PC_REJECTED {
        if list[k].result != PC_ACCEPT {
          return None;
        }
        list := list[k := list[k].(result := v)];
      } else if list[k].result != v {
        return None;
      }
    }
    r := Some(list);
  }

  /** The contents with an accepting verdict, in order; their types go into the response. */
  function Accepted(contents: seq<Content>): seq<Content> {
    if contents == [] then []
    else
      var n := |contents| - 1;
      Accepted(contents[..n]) + (if contents[n].result == PC_ACCEPT then [contents[n]] else [])
  }

  // ---------------------------------------------------------------- the initiator again

  /** FInitializeRequestAux on the confirmation: for each offered type the response names,
      the context at the type's position. */
  function Conclude(types: seq<Oid>, named: set<Oid>, list: seq<Context>): seq<Content>
    requires |types| < |list|
  {
    if types == [] then []
    else
      var n := |types| - 1;
      Conclude(types[..n], named, list)
      + (if types[n] in named then [Content(types[n], list[n + 1].id, list[n + 1].result)] else [])
  }

  method FinishContents(types: seq<Oid>, response: seq<Oid>, list: seq<Context>) returns (contents: seq<Content>)
    requires |types| < |list|
    ensures contents == Conclude(types, (set d | d in response), list)
  {
    contents := [];
    for k := 0 to |types|
      invariant contents == Conclude(types[..k], (set d | d in response), list)
    {
      assert types[..k + 1][..k] == types[..k];
      var i := 0;
      while i < |response| && response[i] != types[k]
        invariant 0 <= i <= |response|
        invariant forall h :: 0 <= h < i ==> response[h] != types[k]
      {
        i := i + 1;
      }
      if i < |response| {
        assert response[i] in response;
        contents := contents + [Content(types[k], list[k + 1].id, list[k + 1].result)];
      }
    }
    assert types[..|types|] == types;
  }

  // ---------------------------------------------------------------- agreement

  /** Both ends know every offered type by the same abstract syntax, and the syntaxes are
      distinct from each other, from FTAM's and from ACSE's. */
  ghost predicate Clear(types: seq<Oid>, mine: map<Oid, Oid>, theirs: map<Oid, Oid>, pci: Oid, acse: Oid) {
    (forall k :: 0 <= k < |types| ==>
       types[k] in mine && types[k] in theirs && mine[types[k]] == theirs[types[k]]
       && mine[types[k]] != pci && mine[types[k]] != acse)
    && (forall h, k :: 0 <= h < k < |types| ==> mine[types[h]] != mine[types[k]])
  }

  /** What the responder receives: the offered contexts and ACSE's behind them, with results. */
  ghost predicate Received(types: seq<Oid>, docs: map<Oid, Oid>, pci: Oid, acse: Oid, got: seq<Context>) {
    |got| == |types| + 2
    && got[0].id == 1 && got[0].asn == pci
    && (forall k :: 0 <= k < |types| ==>
          types[k] in docs && got[k + 1].id == 2 * k + 3 && got[k + 1].asn == docs[types[k]])
    && got[|types| + 1].asn == acse && got[|types| + 1].id == 2 * |types| + 3
  }

  /** The offer with ACSE's context added is what Received describes. */
  lemma OfferIsReceived(types: seq<Oid>, mine: map<Oid, Oid>, theirs: map<Oid, Oid>, pci: Oid, acse: Oid,
                        got: seq<Context>)
    requires Clear(types, mine, theirs, pci, acse) && pci != acse
    ensures OfferContexts(types, mine, pci).Some? && |OfferContexts(types, mine, pci).value| == |types| + 1
    ensures DistinctIds(OfferContexts(types, mine, pci).value)
    ensures Offering(OfferContexts(types, mine, pci).value, acse).id == 2 * |types| + 3
    ensures Answers(Offering(OfferContexts(types, mine, pci).value, acse).list, got)
            ==> Received(types, mine, pci, acse, got)
  {
    OfferKnown(types, mine, pci);
    var list := OfferContexts(types, mine, pci).value;
    forall k | 0 <= k < |types|
      ensures list[k + 1] == Context(2 * k + 3, mine[types[k]], PC_ACCEPT) && |list| == |types| + 1
    {
      OfferAt(types, mine, pci, k);
    }
    forall h | 0 <= h < |list|
      ensures list[h].asn != acse && list[h].id == 2 * h + 1
    {
      if h > 0 {
        OfferAt(types, mine, pci, h - 1);
      }
    }
    OfferFresh(list, |list|);
    assert list[..|list|] == list;
  }

  lemma {:induction false} OfferKnown(types: seq<Oid>, docs: map<Oid, Oid>, pci: Oid)
    requires forall k :: 0 <= k < |types| ==> types[k] in docs
    ensures OfferContexts(types, docs, pci).Some?
    ensures |OfferContexts(types, docs, pci).value| == |types| + 1
    ensures OfferContexts(types, docs, pci).value[0] == Context(1, pci, PC_ACCEPT)
  {
    if types != [] {
      OfferKnown(types[..|types| - 1], docs, pci);
    }
  }

  lemma {:induction false} OfferFresh(list: seq<Context>, n: nat)
    requires n <= |list| && forall h :: 0 <= h < |list| ==> list[h].id == 2 * h + 1
    ensures FreshId(list[..n]) == 2 * n + 1
  {
    if n > 0 {
      OfferFresh(list, n - 1);
      assert list[..n][..n - 1] == list[..n - 1];
    }
  }

  /** The responder presents every offered type, in order, with its own context. */
  lemma {:induction false} PresentsAll(types: seq<Oid>, docs: map<Oid, Oid>, theirs: map<Oid, Oid>, pci: Oid, acse: Oid,
                                       got: seq<Context>, n: nat)
    requires n <= |types| && Clear(types, docs, theirs, pci, acse) && Received(types, docs, pci, acse, got)
    ensures var p := Present(types[..n], theirs, got, 1, got[|types| + 1].id);
            |p| == n && forall k :: 0 <= k < n ==> p[k] == Content(types[k], 2 * k + 3, got[k + 1].result)
  {
    if n > 0 {
      PresentsAll(types, docs, theirs, pci, acse, got, n - 1);
      assert types[..n][..n - 1] == types[..n - 1];
      var k := Match(got, 1, got[|types| + 1].id, theirs[types[n - 1]]);
      assert got[n].asn == docs[types[n - 1]] && got[n].id == 2 * n + 1;
      assert forall h :: 0 < h < n ==> got[h].asn == docs[types[h - 1]];
    }
  }

  lemma {:induction false} AcceptedIs(contents: seq<Content>, c: Content)
    ensures c in Accepted(contents) <==> c in contents && c.result == PC_ACCEPT
  {
    if contents != [] {
      var n := |contents| - 1;
      AcceptedIs(contents[..n], c);
      assert contents == contents[..n] + [contents[n]];
    }
  }

  lemma {:induction false} ConcludesAccepted(types: seq<Oid>, decided: seq<Content>, named: set<Oid>,
                                             list: seq<Context>, n: nat)
    requires n <= |types| == |decided| && |types| < |list|
    requires forall k :: 0 <= k < |types| ==> decided[k].dtn == types[k] && decided[k].id == list[k + 1].id
    requires forall k :: 0 <= k < |types| ==> (types[k] in named <==> decided[k].result == PC_ACCEPT)
    requires forall k :: 0 <= k < |types| && decided[k].result == PC_ACCEPT ==> list[k + 1].result == PC_ACCEPT
    ensures Conclude(types[..n], named, list) == Accepted(decided[..n])
  {
    if n > 0 {
      ConcludesAccepted(types, decided, named, list, n - 1);
      assert types[..n][..n - 1] == types[..n - 1] && decided[..n][..n - 1] == decided[..n - 1];
    }
  }

  ghost predicate DistinctTypes(types: seq<Oid>) {
    forall h, k :: 0 <= h < k < |types| ==> types[h] != types[k]
  }

  function Dtns(contents: seq<Content>): set<Oid> {
    set c | c in contents :: c.dtn
  }

  lemma NamesAccepted(types: seq<Oid>, decided: seq<Content>, k: nat)
    requires DistinctTypes(types) && k < |types| == |decided|
    requires forall h :: 0 <= h < |types| ==> decided[h].dtn == types[h]
    ensures types[k] in Dtns(Accepted(decided)) <==> decided[k].result == PC_ACCEPT
  {
    hide Accepted;
    AcceptedIs(decided, decided[k]);
    assert decided[k] in decided;
    if types[k] in Dtns(Accepted(decided)) {
      var c :| c in Accepted(decided) && c.dtn == types[k];
      AcceptedIs(decided, c);
      var h :| 0 <= h < |decided| && decided[h] == c;
      assert h == k;
    }
  }

  /** The initiator's reading of any decided contents that match the contexts by position. */
  lemma ReadsBack(types: seq<Oid>, contents: seq<Content>, verdicts: seq<int>, list: seq<Context>)
    requires DistinctTypes(types) && |contents| == |types| < |list| && Lawful(contents, verdicts)
    requires forall k :: 0 <= k < |types| ==> contents[k].dtn == types[k] && contents[k].id == list[k + 1].id
    requires forall k :: 0 <= k < |types| && contents[k].result == PC_ACCEPT ==> list[k + 1].result == PC_ACCEPT
    ensures var accepted := Accepted(Decide(contents, verdicts));
            Conclude(types, Dtns(accepted), list) == accepted
  {
    hide Accepted, Conclude, Dtns;
    var decided := Decide(contents, verdicts);
    var named := Dtns(Accepted(decided));
    forall k | 0 <= k < |types|
      ensures types[k] in named <==> decided[k].result == PC_ACCEPT
    {
      NamesAccepted(types, decided, k);
    }
    ConcludesAccepted(types, decided, named, list, |types|);
    assert decided[..|types|] == decided && types[..|types|] == types;
  }

  lemma StripsBack(n: nat, back: seq<Context>, o: Offered)
    requires |back| == n + 1 && o.offset < 0 && back[n].id == o.id && back[n].result == PC_ACCEPT
    ensures Strip(back, o) == Some(back[..n])
  {
  }

  /** End to end: whatever the providers accepted, the initiator's contents are exactly the
      ones the responder holds as accepted, in offer order, with the same context identifiers,
      although ACSE added a context in between, if and only if the responder gave its verdicts
      or accepted nothing: a response without verdicts names no type. */
  lemma ContentsAgree(types: seq<Oid>, mine: map<Oid, Oid>, theirs: map<Oid, Oid>, pci: Oid, acse: Oid,
                      got: seq<Context>, verdicts: Option<seq<int>>)
    requires Clear(types, mine, theirs, pci, acse) && pci != acse
    requires OfferContexts(types, mine, pci).Some?
    requires var o := Offering(OfferContexts(types, mine, pci).value, acse);
             Answers(o.list, got) && (forall c :: c in got && c.id == o.id ==> c.result == PC_ACCEPT)
             && MayAnswer(Present(types, theirs, got, 1, o.id), verdicts)
    ensures var o := Offering(OfferContexts(types, mine, pci).value, acse);
            var contents := Present(types, theirs, got, 1, o.id);
            var accepted := Accepted(Judged(contents, verdicts));
            var confirmed := Strip(LeaveResults(got, contents, 1, o.id), o);
            Recognise(got, o.id, acse) == Some(o.id)
            && confirmed.Some? && |types| < |confirmed.value|
            && (Conclude(types, Named(contents, verdicts), confirmed.value) == accepted
                <==> verdicts.Some? || accepted == [])
  {
    ConfirmedBack(types, mine, theirs, pci, acse, got);
    var o := Offering(OfferContexts(types, mine, pci).value, acse);
    var contents := Present(types, theirs, got, 1, o.id);
    var confirmed := Strip(LeaveResults(got, contents, 1, o.id), o).value;
    hide OfferContexts, Present, Accepted, Conclude, Dtns, LeaveResults, Recognise, Offering, Strip, Answers, Clear;
    if verdicts.Some? {
      ReadsBack(types, contents, verdicts.value, confirmed);
    } else {
      ConcludesNothing(types, confirmed);
    }
  }

  /** Both ends find ACSE's own context, and the responder's contents and the list that is
      confirmed to the initiator go together. */
  lemma ConfirmedBack(types: seq<Oid>, mine: map<Oid, Oid>, theirs: map<Oid, Oid>, pci: Oid, acse: Oid,
                      got: seq<Context>)
    requires Clear(types, mine, theirs, pci, acse) && pci != acse
    requires OfferContexts(types, mine, pci).Some?
    requires var o := Offering(OfferContexts(types, mine, pci).value, acse);
             Answers(o.list, got) && forall c :: c in got && c.id == o.id ==> c.result == PC_ACCEPT
    ensures var o := Offering(OfferContexts(types, mine, pci).value, acse);
            var contents := Present(types, theirs, got, 1, o.id);
            var confirmed := Strip(LeaveResults(got, contents, 1, o.id), o);
            && Recognise(got, o.id, acse) == Some(o.id) && confirmed.Some?
            && DistinctTypes(types) && |contents| == |types| < |confirmed.value|
            && forall k :: 0 <= k < |types| ==>
                 contents[k].dtn == types[k] && contents[k].id == confirmed.value[k + 1].id
                 && (contents[k].result == PC_ACCEPT ==> confirmed.value[k + 1].result == PC_ACCEPT)
  {
    hide OfferContexts, Present, Match, Accepted, Conclude, Dtns, LeaveResults, FreshId, FindAsn, Recognise;
    OfferIsReceived(types, mine, theirs, pci, acse, got);
    var list := OfferContexts(types, mine, pci).value;
    var o := Offering(list, acse);
    AcseRoundTrip(list, acse, got);
    PresentsAll(types, mine, theirs, pci, acse, got, |types|);
    assert types[..|types|] == types;
    var contents := Present(types, theirs, got, 1, o.id);
    var back := LeaveResults(got, contents, 1, o.id);
    var n := |types| + 1;
    assert o.offset < 0 by {
      assert |o.list| == |got| && |list| == |types| + 1;
    }
    assert got[n] in got;
    StripsBack(n, back, o);
    forall k | 0 <= k < |types|
      ensures contents[k].id == back[k + 1].id && (contents[k].result == PC_ACCEPT ==> back[k + 1].result == PC_ACCEPT)
    {
      assert contents[k] in contents;
    }
  }

  lemma {:induction false} ConcludesNothing(types: seq<Oid>, list: seq<Context>)
    requires |types| < |list|
    ensures Conclude(types, {}, list) == []
  {
    if types != [] {
      ConcludesNothing(types[..|types| - 1], list);
    }
  }
}
