/** Presentation addresses in directory messages: psap2dse and dse2psap in acsap/dse-c.c,
    the octets of each network address being those of compat/na2norm.c. */
module Dse {
  import opened Options
  import opened Digits
  import opened Addresses
  import opened NormCodec
  import opened NormRoundTrip

  /** type_DSE_PSAPaddr: optional selectors and the normalised network addresses. */
  datatype DsePaddr = DsePaddr(psel: Option<Selector>, ssel: Option<Selector>, tsel: Option<Selector>,
                               naddrs: seq<seq<Octet>>)

  function Present(sel: Selector): Option<Selector> {
    if |sel| > 0 then Some(sel) else None
  }

  /** gstring: a selector that is too long is reported and then taken for an empty one. */
  function GString(qb: Option<Selector>): (r: Selector)
    ensures |r| <= SELSIZE
  {
    if qb.None? || |qb.value| > SELSIZE then [] else qb.value
  }

  function Encodings(table: seq<Community>, addrs: seq<NetAddr>): Option<seq<seq<Octet>>> {
    if addrs == [] then Some([])
    else
      var first := Na2Norm(table, addrs[0]);
      if first.None? then None else Join([first.value], Encodings(table, addrs[1..]))
  }

  /** psap2dse; None when an address cannot be normalised. */
  function Psap2Dse(table: seq<Community>, a: Paddr): Option<DsePaddr> {
    var n := Encodings(table, a.addrs);
    if n.None? then None else Some(DsePaddr(Present(a.psel), Present(a.ssel), Present(a.tsel), n.value))
  }

  function Decodings(table: seq<Community>, naddrs: seq<seq<Octet>>): Option<seq<NetAddr>> {
    if naddrs == [] then Some([])
    else
      var first := Norm2Na(table, naddrs[0]);
      if !first.Decoded? then None else Join([first.addr], Decodings(table, naddrs[1..]))
  }

  /** dse2psap; None is NOTOK. */
  function Dse2Psap(table: seq<Community>, d: DsePaddr): Option<Paddr> {
    if |d.naddrs| > NTADDR then None
    else
      var l := Decodings(table, d.naddrs);
      if l.None? then None else Some(Paddr(GString(d.psel), GString(d.ssel), GString(d.tsel), l.value))
  }

  /** psap2dse's loop. */
  method BuildDse(table: seq<Community>, a: Paddr) returns (r: Option<DsePaddr>)
    ensures r == Psap2Dse(table, a)
  {
    hide Na2Norm;
    var list: seq<seq<Octet>> := [];
    assert a.addrs[0..] == a.addrs;
    JoinEmpty(Encodings(table, a.addrs));
    for k := 0 to |a.addrs|
      invariant Encodings(table, a.addrs) == Join(list, Encodings(table, a.addrs[k..]))
    {
      var ca := EncodeAddress(table, a.addrs[k]);
      if ca.None? {
        return None;
      }
      assert a.addrs[k..][1..] == a.addrs[k + 1..];
      JoinAssoc(list, [ca.value], Encodings(table, a.addrs[k + 1..]));
      list := list + [ca.value];
    }
    assert list + [] == list;
    r := Some(DsePaddr(Present(a.psel), Present(a.ssel), Present(a.tsel), list));
  }

  /** dse2psap's loop, which finds out about an address too many only when it is there. */
  method ParseDse(table: seq<Community>, d: DsePaddr) returns (r: Option<Paddr>)
    ensures r == Dse2Psap(table, d)
  {
    hide Norm2Na;
    var list: seq<NetAddr> := [];
    assert d.naddrs[0..] == d.naddrs;
    JoinEmpty(Decodings(table, d.naddrs));
    for k := 0 to |d.naddrs|
      invariant |list| == k <= NTADDR
      invariant Decodings(table, d.naddrs) == Join(list, Decodings(table, d.naddrs[k..]))
    {
      if |list| >= NTADDR {
        return None;
      }
      var na := DecodeAddress(table, d.naddrs[k]);
      if !na.Decoded? {
        return None;
      }
      assert d.naddrs[k..][1..] == d.naddrs[k + 1..];
      JoinAssoc(list, [na.addr], Decodings(table, d.naddrs[k + 1..]));
      list := list + [na.addr];
    }
    assert list + [] == list;
    r := Some(Paddr(GString(d.psel), GString(d.ssel), GString(d.tsel), list));
  }

  // ---------------------------------------------------------------- the round trip

  function NormalAll(addrs: seq<NetAddr>): (r: seq<NetAddr>)
    ensures |r| == |addrs| && forall i :: 0 <= i < |addrs| ==> r[i] == Normal(addrs[i])
  {
    if addrs == [] then [] else [Normal(addrs[0])] + NormalAll(addrs[1..])
  }

  lemma {:induction false} ListRoundTrip(table: seq<Community>, addrs: seq<NetAddr>)
    requires forall i :: 0 <= i < |addrs| ==> Encodable(table, addrs[i])
    ensures Encodings(table, addrs).Some? && |Encodings(table, addrs).value| == |addrs|
    ensures Decodings(table, Encodings(table, addrs).value) == Some(NormalAll(addrs))
            <==> forall i :: 0 <= i < |addrs| ==> Survives(table, addrs[i])
  {
    hide Na2Norm, Norm2Na, Normal, WellFormed, Housed, Survives;
    if addrs != [] {
      var rest := addrs[1..];
      assert Encodable(table, addrs[0]);
      RoundTrip(table, addrs[0]);
      ListRoundTrip(table, rest);
      var p, q := Na2Norm(table, addrs[0]).value, Encodings(table, rest).value;
      assert ([p] + q)[1..] == q;
      var first, later := Norm2Na(table, p), Decodings(table, q);
      if first.Decoded? && later.Some? {
        SameCons(first.addr, later.value, Normal(addrs[0]), NormalAll(rest));
      }
      assert forall i :: 0 <= i < |rest| ==> rest[i] == addrs[i + 1];
      assert forall i :: 1 <= i < |addrs| ==> addrs[i] == rest[i - 1];
    }
  }

  lemma SameCons(a: NetAddr, l: seq<NetAddr>, b: NetAddr, m: seq<NetAddr>)
    ensures [a] + l == [b] + m <==> a == b && l == m
  {
    if [a] + l == [b] + m {
      assert ([a] + l)[0] == a && ([b] + m)[0] == b;
      assert ([a] + l)[1..] == l && ([b] + m)[1..] == m;
    }
  }

  predicate Fits(a: Paddr) {
    |a.psel| <= SELSIZE && |a.ssel| <= SELSIZE && |a.tsel| <= SELSIZE && |a.addrs| <= NTADDR
  }

  /** dse2psap undoes psap2dse, up to the normal form of each network address, if and only if
      no selector and no list is too long (a longer selector is dropped without an error, a
      longer list is refused) and every address survives its octet form. */
  lemma DseRoundTrip(table: seq<Community>, a: Paddr)
    requires forall i :: 0 <= i < |a.addrs| ==> Encodable(table, a.addrs[i])
    ensures Psap2Dse(table, a).Some?
    ensures Dse2Psap(table, Psap2Dse(table, a).value) == Some(a.(addrs := NormalAll(a.addrs)))
            <==> Fits(a) && forall i :: 0 <= i < |a.addrs| ==> Survives(table, a.addrs[i])
  {
    hide Survives, Encodings, Decodings;
    ListRoundTrip(table, a.addrs);
  }

  /** A selector that is too long is lost in silence: the rest of the address comes back. */
  lemma LongSelectorLost(table: seq<Community>, a: Paddr)
    requires forall i :: 0 <= i < |a.addrs| ==> Encodable(table, a.addrs[i]) && Survives(table, a.addrs[i])
    requires |a.addrs| <= NTADDR
    ensures Psap2Dse(table, a).Some?
    ensures Dse2Psap(table, Psap2Dse(table, a).value)
         == Some(Paddr(if |a.psel| > SELSIZE then [] else a.psel, if |a.ssel| > SELSIZE then [] else a.ssel,
                       if |a.tsel| > SELSIZE then [] else a.tsel, NormalAll(a.addrs)))
  {
    hide Survives, Encodings, Decodings;
    ListRoundTrip(table, a.addrs);
  }

  // ---------------------------------------------------------------- element by element

  /** An element of the message stands for this selector: there is none for an empty one. */
  predicate Carries(element: Option<Selector>, sel: Selector) {
    (element.None? <==> |sel| == 0) && (element.Some? ==> element.value == sel)
  }

  /** What psap2dse puts into a message: each selector in its own element, no element for an
      empty one, and the octets of every address, in order; nothing at all when one of the
      addresses has none. */
  lemma {:induction false} DseElements(table: seq<Community>, a: Paddr)
    ensures Psap2Dse(table, a).Some? <==> forall i :: 0 <= i < |a.addrs| ==> Na2Norm(table, a.addrs[i]).Some?
    ensures Psap2Dse(table, a).Some? ==>
              var d := Psap2Dse(table, a).value;
              && Carries(d.psel, a.psel) && Carries(d.ssel, a.ssel) && Carries(d.tsel, a.tsel)
              && |d.naddrs| == |a.addrs|
              && forall i :: 0 <= i < |a.addrs| ==> Some(d.naddrs[i]) == Na2Norm(table, a.addrs[i])
    decreases |a.addrs|
  {
    hide Na2Norm;
    if a.addrs != [] {
      var rest := a.addrs[1..];
      DseElements(table, a.(addrs := rest));
      assert forall i :: 1 <= i < |a.addrs| ==> a.addrs[i] == rest[i - 1];
      assert forall i :: 0 <= i < |rest| ==> rest[i] == a.addrs[i + 1];
    }
  }

  /** What an element gives the caller of dse2psap: a selector of at most 64 octets, or an
      empty one. */
  predicate Yields(element: Option<Selector>, sel: Selector) {
    sel == if element.Some? && |element.value| <= 64 then element.value else []
  }

  /** What dse2psap makes of any message, from whatever system: every address must decode and
      there may be at most eight; each selector comes from its own element. */
  lemma {:induction false} DseMeans(table: seq<Community>, d: DsePaddr)
    ensures Dse2Psap(table, d).Some?
            <==> |d.naddrs| <= 8 && forall i :: 0 <= i < |d.naddrs| ==> Norm2Na(table, d.naddrs[i]).Decoded?
    ensures Dse2Psap(table, d).Some? ==>
              var a := Dse2Psap(table, d).value;
              && Yields(d.psel, a.psel) && Yields(d.ssel, a.ssel) && Yields(d.tsel, a.tsel)
              && |a.addrs| == |d.naddrs|
              && forall i :: 0 <= i < |d.naddrs| ==> Decoded(a.addrs[i]) == Norm2Na(table, d.naddrs[i])
  {
    hide Norm2Na;
    DecodingsEach(table, d.naddrs);
  }

  lemma {:induction false} DecodingsEach(table: seq<Community>, naddrs: seq<seq<Octet>>)
    ensures Decodings(table, naddrs).Some? <==> forall i :: 0 <= i < |naddrs| ==> Norm2Na(table, naddrs[i]).Decoded?
    ensures Decodings(table, naddrs).Some? ==>
              var l := Decodings(table, naddrs).value;
              |l| == |naddrs| && forall i :: 0 <= i < |l| ==> Decoded(l[i]) == Norm2Na(table, naddrs[i])
  {
    hide Norm2Na;
    if naddrs != [] {
      var rest := naddrs[1..];
      DecodingsEach(table, rest);
      assert forall i :: 1 <= i < |naddrs| ==> naddrs[i] == rest[i - 1];
      assert forall i :: 0 <= i < |rest| ==> rest[i] == naddrs[i + 1];
    }
  }
}
