/** The text form of a whole presentation address: _paddr2str and str2paddr in
    compat/isoaddrs.c. */
module PaddrText {
  import opened Options
  import opened Digits
  import opened Addresses
  import opened Macros
  import opened NsapText
  import opened Tailoring
  import opened AddressText
  import C = NormCodec
  import T = NormRoundTrip

  // ---------------------------------------------------------------- selectors

  /** The characters a selector may have inside double quotes. */
  predicate Quotable(o: Octet) {
    '0' as int <= o <= '9' as int || 'A' as int <= o <= 'Z' as int || 'a' as int <= o <= 'z' as int
    || o == '+' as int || o == '-' as int || o == '.' as int
  }

  predicate AllQuotable(sel: Selector) {
    forall i :: 0 <= i < |sel| ==> Quotable(sel[i])
  }

  function CharsOf(sel: Selector): (s: string)
    ensures |s| == |sel|
  {
    if sel == [] then [] else CharsOf(sel[..|sel| - 1]) + [sel[|sel| - 1] as char]
  }

  /** SEL2STR. */
  function SelText(sel: Selector): string {
    if sel == [] then ""
    else if AllQuotable(sel) then "\"" + CharsOf(sel) + "\""
    else "'" + Explode(sel) + "'H"
  }

  /** SEL2STR's loop, which starts over in hexadecimal at the first other character. */
  method SelToText(sel: Selector) returns (s: string)
    ensures s == SelText(sel)
  {
    hide Quotable, Explode;
    if |sel| == 0 {
      return "";
    }
    var chars := "";
    for i := 0 to |sel|
      invariant chars == CharsOf(sel[..i])
      invariant forall j :: 0 <= j < i ==> Quotable(sel[j])
    {
      if !Quotable(sel[i]) {
        var hex := ExplodeLoop(sel);
        return "'" + hex + "'H";
      }
      assert sel[..i + 1][..i] == sel[..i];
      chars := chars + [sel[i] as char];
    }
    assert sel[..|sel|] == sel;
    s := "\"" + chars + "\"";
  }

  predicate SelStart(c: char) {
    c == '"' || c == '#' || c == '\'' || c == '/'
  }

  /** What fits a selector buffer; text in quotes needs room for its terminator. */
  function Bounded(o: Option<Selector>, room: nat): Option<Selector> {
    if o.Some? && |o.value| > room then None else o
  }

  /** One selector, without the '/' that must follow: what it is and the text behind it. */
  function TakeSel(s: string): Option<(Selector, string)>
    requires s != [] && SelStart(s[0])
  {
    var t := s[1..];
    match s[0]
    case '"' =>
      var sel := Bounded(CharOctets(Before(t, '"')), SELSIZE - 1);
      if !Has(t, '"') || sel.None? then None else Some((sel.value, After(t, '"')))
    case '#' =>
      var d := LeadingDigits(t);
      if Val(d) > 0xffff then None else Some(([Val(d) / 256, Val(d) % 256], t[|d|..]))
    case '\'' =>
      var sel := Bounded(Implode(Before(t, '\'')), SELSIZE);
      var rest := After(t, '\'');
      if !Has(t, '\'') || rest == [] || rest[0] != 'H' || sel.None? then None else Some((sel.value, rest[1..]))
    case _ => Some(([], s))
  }

  /** Up to k selectors, each closed by a '/', and what follows them. */
  function TakeSels(k: nat, s: string): (r: Option<(seq<Selector>, string)>)
    ensures r.Some? ==> |r.value.0| <= k
    decreases k
  {
    if k == 0 || s == [] || !SelStart(s[0]) then Some(([], s))
    else
      var one := TakeSel(s);
      if one.None? || one.value.1 == [] || one.value.1[0] != '/' then None
      else
        var more := TakeSels(k - 1, one.value.1[1..]);
        if more.None? then None else Some(([one.value.0] + more.value.0, more.value.1))
  }

  // ---------------------------------------------------------------- the list of addresses

  /** Refused, all addresses, or only those there was room for: then the selectors are
      dropped as well. */
  datatype Parsed = Refused | All(addrs: seq<NetAddr>) | Full(addrs: seq<NetAddr>)

  function Cons(a: NetAddr, p: Parsed): Parsed {
    match p
    case Refused => Refused
    case All(l) => All([a] + l)
    case Full(l) => Full([a] + l)
  }

  /** The network addresses, separated by '|'; n are there already. */
  function ParseList(table: seq<Community>, book: seq<Macro>, n: nat, s: string): Parsed
    decreases |s|
  {
    if s == [] then All([])
    else
      var text := Expand(book, Before(s, '|'));
      if text.None? || !Gate(table, text.value) then Refused
      else if n >= NTADDR then Full([])
      else
        var a := ParseNet(table, text.value);
        if a.None? then Refused else Cons(a.value, ParseList(table, book, n + 1, After(s, '|')))
  }

  /** The selectors belong to the lowest layers. */
  function Aligned(sels: seq<Selector>, addrs: seq<NetAddr>): Paddr
    requires |sels| <= 3
  {
    var n := |sels|;
    Paddr(if n == 3 then sels[0] else [], if n >= 2 then sels[n - 2] else [], if n >= 1 then sels[n - 1] else [], addrs)
  }

  /** str2paddr. */
  function ParsePaddr(table: seq<Community>, book: seq<Macro>, s: string): Option<Paddr> {
    var sels := TakeSels(3, s);
    if sels.None? then None
    else
      match ParseList(table, book, 0, sels.value.1)
      case Refused => None
      case All(addrs) => Some(Aligned(sels.value.0, addrs))
      case Full(addrs) => Some(Aligned([], addrs))
  }

  // ---------------------------------------------------------------- printing

  /** The selectors, from the highest layer that has one. */
  function SelsText(a: Paddr): string {
    var p := if a.psel != [] then SelText(a.psel) + "/" else "";
    var q := if a.ssel != [] || p != "" then p + (SelText(a.ssel) + "/") else "";
    if a.tsel != [] || q != "" then q + (SelText(a.tsel) + "/") else ""
  }

  /** The texts of the addresses, each abbreviated by its macro if there is one. */
  function Texts(table: seq<Community>, addrs: seq<NetAddr>, marks: seq<Option<Macro>>): Option<seq<string>>
    requires |marks| == |addrs|
  {
    if addrs == [] then Some([])
    else
      var n := |addrs| - 1;
      var front := Texts(table, addrs[..n], marks[..n]);
      var text := NetText(table, addrs[n]);
      if front.None? || text.None? then None
      else Some(front.value + [Shown(marks[n], text.value)])
  }

  function Bars(texts: seq<string>): string {
    if texts == [] then "" else if |texts| == 1 then texts[0] else Bars(texts[..|texts| - 1]) + "|" + texts[|texts| - 1]
  }

  /** _paddr2str with the macros chosen for the addresses (none at all when compact is
      negative); None for "NULLPA". */
  function PrintPaddr(table: seq<Community>, a: Paddr, marks: seq<Option<Macro>>): Option<string>
    requires |marks| == |a.addrs|
  {
    var texts := Texts(table, a.addrs, marks);
    if texts.None? || (a.addrs == [] && SelsText(a) == "") then None
    else Some(SelsText(a) + Bars(texts.value))
  }

  // ---------------------------------------------------------------- selectors come back

  lemma {:induction false} CharsBack(sel: Selector)
    ensures CharOctets(CharsOf(sel)) == Some(sel)
    ensures forall i :: 0 <= i < |sel| ==> CharsOf(sel)[i] as int == sel[i]
  {
    if sel != [] {
      var n := |sel| - 1;
      var front := sel[..n];
      CharsBack(front);
      assert sel == front + [sel[n]];
      CharOctetsConcat(CharsOf(front), [sel[n] as char]);
      CharOctetsOne(sel[n]);
    }
  }

  lemma CharOctetsOne(o: Octet)
    ensures CharOctets([o as char]) == Some([o])
  {
    assert [o as char][1..] == [] && [o] + [] == [o];
  }

  lemma {:induction false} CharOctetsConcat(a: string, b: string)
    requires CharOctets(a).Some? && CharOctets(b).Some?
    ensures CharOctets(a + b) == Some(CharOctets(a).value + CharOctets(b).value)
  {
    if a == [] {
      assert a + b == b && [] + CharOctets(b).value == CharOctets(b).value;
    } else {
      var t := a[1..];
      assert (a + b)[0] == a[0] && (a + b)[1..] == t + b;
      CharOctetsConcat(t, b);
      JoinAssoc([a[0] as int as Octet], CharOctets(t).value, Some(CharOctets(b).value));
    }
  }

  lemma QuotedNoQuote(sel: Selector)
    requires AllQuotable(sel)
    ensures '"' !in CharsOf(sel)
  {
    hide CharOctets;
    CharsBack(sel);
    forall i | 0 <= i < |sel|
      ensures CharsOf(sel)[i] != '"'
    {
      assert Quotable(sel[i]) && CharsOf(sel)[i] as int == sel[i];
    }
  }

  /** The selectors str2paddr can take back. */
  predicate SelFits(sel: Selector) {
    if AllQuotable(sel) then |sel| < SELSIZE else |sel| <= SELSIZE
  }

  lemma TakeQuoted(chars: string, t: string)
    requires '"' !in chars && CharOctets(chars).Some?
    ensures TakeSel(['"'] + chars + ['"'] + t) == if |chars| < SELSIZE then Some((CharOctets(chars).value, t)) else None
  {
    var u := chars + ['"'] + t;
    QuoteFirst(u);
    CutAt(chars, '"', t);
    BoundedBy(CharOctets(chars), SELSIZE - 1);
    hide *;
    Assoc(['"'], chars, ['"']);
    Assoc(['"'], chars + ['"'], t);
  }

  lemma QuoteFirst(u: string)
    ensures SelStart('"')
    ensures var sel := Bounded(CharOctets(Before(u, '"')), SELSIZE - 1);
            TakeSel(['"'] + u) == if !Has(u, '"') || sel.None? then None else Some((sel.value, After(u, '"')))
  {
    hide CharOctets, Before, After, Has;
    assert (['"'] + u)[1..] == u;
  }

  lemma BoundedBy(o: Option<Selector>, room: nat)
    ensures o.Some? ==> Bounded(o, room) == if |o.value| <= room then o else None
    ensures SELSIZE == 64
  {
  }

  lemma TakeHex(hex: string, t: string)
    requires '\'' !in hex && Implode(hex).Some?
    ensures TakeSel(['\''] + hex + ['\'', 'H'] + t)
         == if |Implode(hex).value| <= SELSIZE then Some((Implode(hex).value, t)) else None
  {
    var s := ['\''] + hex + ['\'', 'H'] + t;
    var rest := ['H'] + t;
    CutAt(hex, '\'', rest);
    hide Implode, IndexOf, Before, After, Has;
    assert s[1..] == hex + ['\''] + rest;
    assert rest[1..] == t;
  }

  /** A printed selector is taken off the front of any text if and only if it fits. */
  lemma TakeBack(sel: Selector, t: string)
    ensures var s := SelText(sel) + ("/" + t);
            s != [] && SelStart(s[0]) && TakeSel(s) == if SelFits(sel) then Some((sel, "/" + t)) else None
  {
    var u := "/" + t;
    var s := SelText(sel) + u;
    var fits := SelFits(sel);
    if sel == [] {
      assert s == u;
    } else if AllQuotable(sel) {
      QuotedNoQuote(sel);
      CharsBack(sel);
      QuoteChar();
      assert fits <==> |CharsOf(sel)| < SELSIZE;
      hide *;
      TakeQuoted(CharsOf(sel), u);
      assert s == ['"'] + CharsOf(sel) + ['"'] + u;
    } else {
      ImplodeExplode(sel);
      ExplodeLower(sel);
      NoApostrophe(Explode(sel));
      QuoteChar();
      assert fits <==> |sel| <= SELSIZE;
      hide *;
      TakeHex(Explode(sel), u);
      assert s == ['\''] + Explode(sel) + ['\'', 'H'] + u;
    }
  }

  lemma QuoteChar()
    ensures "\"" == ['"'] && "'" == ['\''] && "'H" == ['\'', 'H'] && SelStart('"') && SelStart('\'')
  {
  }

  lemma NoApostrophe(s: string)
    requires LowerHex(s)
    ensures '\'' !in s
  {
  }

  lemma TakeOne(k: nat, sel: Selector, t: string)
    requires k > 0
    ensures var more := TakeSels(k - 1, t);
            TakeSels(k, SelText(sel) + ("/" + t))
            == if !SelFits(sel) || more.None? then None else Some(([sel] + more.value.0, more.value.1))
  {
    TakeBack(sel, t);
    hide TakeSel, SelText, SelStart, SelFits;
    assert ("/" + t)[1..] == t;
  }

  predicate Stops(t: string) {
    t == [] || !SelStart(t[0])
  }

  /** The selectors as printed. */
  function Sels(a: Paddr): seq<Selector> {
    if a.psel != [] then [a.psel, a.ssel, a.tsel]
    else if a.ssel != [] then [a.ssel, a.tsel]
    else if a.tsel != [] then [a.tsel] else []
  }

  predicate SelsFit(a: Paddr) {
    SelFits(a.psel) && SelFits(a.ssel) && SelFits(a.tsel)
  }

  lemma SelsBack(a: Paddr, t: string)
    requires Stops(t)
    ensures TakeSels(3, SelsText(a) + t) == if SelsFit(a) then Some((Sels(a), t)) else None
    ensures Aligned(Sels(a), a.addrs) == a
    ensures SelsText(a) == "" <==> Sels(a) == []
  {
    EmptyFits();
    hide SelText, TakeSel, SelFits;
    var p, q, r := SelText(a.psel) + "/", SelText(a.ssel) + "/", SelText(a.tsel) + "/";
    TakeNone(0, t);
    assert [a.ssel] + ([a.tsel] + []) == [a.ssel, a.tsel] && [a.tsel] + [] == [a.tsel];
    assert [a.psel] + [a.ssel, a.tsel] == [a.psel, a.ssel, a.tsel];
    if a.psel != [] {
      TakeOne(1, a.tsel, t);
      TakeOne(2, a.ssel, SelText(a.tsel) + ("/" + t));
      TakeOne(3, a.psel, SelText(a.ssel) + ("/" + (SelText(a.tsel) + ("/" + t))));
      hide TakeSels;
      assert SelsText(a) == p + q + r;
      Nest3(SelText(a.psel), SelText(a.ssel), SelText(a.tsel), t);
    } else if a.ssel != [] {
      TakeNone(1, t);
      TakeOne(2, a.tsel, t);
      TakeOne(3, a.ssel, SelText(a.tsel) + ("/" + t));
      hide TakeSels;
      assert SelsText(a) == q + r;
      Nest2(SelText(a.ssel), SelText(a.tsel), t);
    } else if a.tsel != [] {
      TakeNone(2, t);
      TakeOne(3, a.tsel, t);
      hide TakeSels;
      assert SelsText(a) == r;
      Assoc(SelText(a.tsel), "/", t);
    } else {
      TakeNone(3, t);
      assert "" + t == t;
    }
  }

  lemma EmptyFits()
    ensures SelFits([])
  {
  }

  lemma TakeNone(k: nat, t: string)
    requires Stops(t)
    ensures TakeSels(k, t) == Some(([], t))
  {
  }

  lemma Nest2(q: string, r: string, t: string)
    ensures q + "/" + (r + "/") + t == q + ("/" + (r + ("/" + t)))
  {
    hide *;
    Assoc(q + "/", r + "/", t);
    Assoc(r, "/", t);
    Assoc(q, "/", r + ("/" + t));
  }

  lemma Nest3(p: string, q: string, r: string, t: string)
    ensures p + "/" + (q + "/") + (r + "/") + t == p + ("/" + (q + ("/" + (r + ("/" + t)))))
  {
    hide *;
    Assoc(p + "/" + (q + "/"), r + "/", t);
    Assoc(r, "/", t);
    Nest2(p, q, r + ("/" + t));
  }

  // ---------------------------------------------------------------- the list comes back

  lemma {:induction false} BarsFront(first: string, rest: seq<string>)
    requires rest != []
    ensures Bars([first] + rest) == first + "|" + Bars(rest)
  {
    var n := |rest| - 1;
    var all := [first] + rest;
    assert all[..|all| - 1] == [first] + rest[..n] && all[|all| - 1] == rest[n];
    if n == 0 {
      assert all[..1] == [first];
    } else {
      BarsFront(first, rest[..n]);
      hide *;
      assert first + "|" + Bars(rest[..n]) + "|" + rest[n] == first + "|" + (Bars(rest[..n]) + "|" + rest[n]);
    }
  }

  /** What the parser can be given for one address. */
  predicate Piece(book: seq<Macro>, s: string) {
    s != [] && '|' !in s && Expand(book, s).Some? && !SelStart(s[0])
  }

  /** The address one piece stands for. */
  function Meant(table: seq<Community>, book: seq<Macro>, s: string): Option<NetAddr> {
    var text := Expand(book, s);
    if text.None? then None else ParseNet(table, text.value)
  }

  function MeantAll(table: seq<Community>, book: seq<Macro>, pieces: seq<string>): Option<seq<NetAddr>> {
    if pieces == [] then Some([])
    else
      var first := Meant(table, book, pieces[0]);
      if first.None? then None else Join([first.value], MeantAll(table, book, pieces[1..]))
  }

  /** The parser splits the list where the printer joined it. */
  lemma {:induction false} ListBack(table: seq<Community>, book: seq<Macro>, n: nat, pieces: seq<string>)
    requires n + |pieces| <= NTADDR && forall i :: 0 <= i < |pieces| ==> Piece(book, pieces[i])
    ensures var all := MeantAll(table, book, pieces);
            ParseList(table, book, n, Bars(pieces)) == if all.None? then Refused else All(all.value)
    decreases |pieces|
  {
    hide ParseNet, Gate, Expand, IndexOf, Piece, Meant;
    if pieces != [] {
      var rest := pieces[1..];
      ListBack(table, book, n + 1, rest);
      ListStep(table, book, n, pieces[0], Bars(rest), rest == []);
      hide ParseList;
      assert pieces == [pieces[0]] + rest;
      if rest != [] {
        hide Bars;
        BarsFront(pieces[0], rest);
      }
    }
  }

  lemma MeantEach(table: seq<Community>, book: seq<Macro>, pieces: seq<string>, addrs: seq<NetAddr>)
    requires |addrs| == |pieces|
    ensures MeantAll(table, book, pieces) == Some(addrs)
            <==> forall i :: 0 <= i < |pieces| ==> Meant(table, book, pieces[i]) == Some(addrs[i])
  {
    hide *;
    if MeantAll(table, book, pieces) == Some(addrs) {
      forall i | 0 <= i < |pieces|
        ensures Meant(table, book, pieces[i]) == Some(addrs[i])
      {
        MeantAt(table, book, pieces, addrs, i);
      }
    }
    if forall i :: 0 <= i < |pieces| ==> Meant(table, book, pieces[i]) == Some(addrs[i]) {
      MeantFrom(table, book, pieces, addrs);
    }
  }

  lemma {:induction false} MeantAt(table: seq<Community>, book: seq<Macro>, pieces: seq<string>, addrs: seq<NetAddr>,
                                   i: nat)
    requires |addrs| == |pieces| > i && MeantAll(table, book, pieces) == Some(addrs)
    ensures Meant(table, book, pieces[i]) == Some(addrs[i])
  {
    hide *;
    MeantCons(table, book, pieces, addrs);
    if i > 0 {
      MeantAt(table, book, pieces[1..], addrs[1..], i - 1);
    }
  }

  lemma {:induction false} MeantFrom(table: seq<Community>, book: seq<Macro>, pieces: seq<string>, addrs: seq<NetAddr>)
    requires |addrs| == |pieces|
    requires forall i :: 0 <= i < |pieces| ==> Meant(table, book, pieces[i]) == Some(addrs[i])
    ensures MeantAll(table, book, pieces) == Some(addrs)
  {
    if pieces != [] {
      hide *;
      var rest, later := pieces[1..], addrs[1..];
      forall i | 0 <= i < |rest|
        ensures Meant(table, book, rest[i]) == Some(later[i])
      {
        assert rest[i] == pieces[i + 1] && later[i] == addrs[i + 1];
      }
      MeantFrom(table, book, rest, later);
      MeantCons(table, book, pieces, addrs);
    }
  }

  lemma MeantCons(table: seq<Community>, book: seq<Macro>, pieces: seq<string>, addrs: seq<NetAddr>)
    requires |addrs| == |pieces| > 0
    ensures MeantAll(table, book, pieces) == Some(addrs)
            <==> Meant(table, book, pieces[0]) == Some(addrs[0])
                 && MeantAll(table, book, pieces[1..]) == Some(addrs[1..])
  {
    hide Meant;
    var first := Meant(table, book, pieces[0]);
    assert addrs == [addrs[0]] + addrs[1..];
    if first.Some? {
      JoinSome(first.value, MeantAll(table, book, pieces[1..]), addrs[0], addrs[1..]);
    }
  }

  lemma JoinSome(x: NetAddr, o: Option<seq<NetAddr>>, y: NetAddr, l: seq<NetAddr>)
    ensures Join([x], o) == Some([y] + l) <==> x == y && o == Some(l)
  {
    if o.Some? {
      assert ([x] + o.value)[0] == x && ([x] + o.value)[1..] == o.value;
      assert ([y] + l)[0] == y && ([y] + l)[1..] == l;
    }
  }

  lemma ListStep(table: seq<Community>, book: seq<Macro>, n: nat, piece: string, rest: string, last: bool)
    requires n < NTADDR && Piece(book, piece) && (last ==> rest == [])
    ensures var m := Meant(table, book, piece);
            ParseList(table, book, n, if last then piece else piece + "|" + rest)
            == if m.None? then Refused else Cons(m.value, ParseList(table, book, n + 1, rest))
  {
    hide ParseNet, Gate, Expand;
    GateFirst(table, Expand(book, piece).value);
    if last {
      CutNone(piece, '|');
    } else {
      CutAt(piece, '|', rest);
      assert piece + ['|'] + rest == piece + "|" + rest;
    }
  }

  lemma GateFirst(table: seq<Community>, text: string)
    ensures !Gate(table, text) ==> ParseNet(table, text).None?
  {
  }

  // ---------------------------------------------------------------- the pieces

  /** A table whose values and a book whose names keep clear of the separators. */
  predicate PlainTable(table: seq<Community>) {
    forall c :: c in table && c.value.Some? ==> '|' !in c.value.value && '=' !in c.value.value
  }

  predicate PlainName(name: string) {
    '=' !in name && '|' !in name && (name == [] || !SelStart(name[0]))
  }

  predicate PlainBook(book: seq<Macro>) {
    forall m :: m in book ==> PlainName(m.name)
  }

  predicate PlainText(text: string) {
    text != [] && '|' !in text && '=' !in text && !SelStart(text[0])
  }

  lemma {:induction false} NamedUpper(entries: seq<Afi>, name: string)
    requires Named(entries, name).Some? && forall e :: e in entries ==> e.name != [] && 'A' <= e.name[0] <= 'Z'
    ensures name != [] && 'A' <= Fold(name[0]) <= 'Z'
  {
    var e := Named(entries, name).value;
    assert Same(e.name, name);
  }

  lemma AfiUpper()
    ensures forall e :: e in AFIS ==> e.name != [] && 'A' <= e.name[0] <= 'Z'
  {
    forall e | e in AFIS
      ensures e.name != [] && 'A' <= e.name[0] <= 'Z'
    {
      TablePlain(e);
    }
  }

  lemma LeadStart(v: string)
    requires v != [] && Macro2Comm(v).Some?
    ensures !SelStart(LeadText(v)[0])
  {
    var name := Before(v, '+');
    hide MadeOf, Implode, Named, AFIS;
    AfiUpper();
    if !Same(name, "NS") {
      NamedUpper(AFIS, name);
    }
    assert name[0] == v[0] && LeadText(v)[0] == v[0];
  }

  lemma LeadPlain(v: string)
    requires v != [] && Macro2Comm(v).Some? && '|' !in v && '=' !in v
    ensures PlainText(LeadText(v))
  {
    hide Macro2Comm;
    LeadStart(v);
  }

  lemma PlainConcat(s: string, t: string)
    requires PlainText(s) && '|' !in t && '=' !in t
    ensures PlainText(s + t)
  {
  }

  lemma PortPlain(port: nat, tset: nat)
    ensures '|' !in PortText(port, tset) && '=' !in PortText(port, tset)
  {
    DecPlusless(port);
    DecPlusless(tset);
  }

  lemma FieldPlain(pid: seq<Octet>, cudf: seq<Octet>)
    ensures '|' !in FieldText(pid, cudf) && '=' !in FieldText(pid, cudf)
  {
    ExplodeLower(pid);
    ExplodeLower(cudf);
    HexPlusless(Explode(pid));
    HexPlusless(Explode(cudf));
  }

  lemma NsapPlain(b: seq<Octet>)
    requires PrintNsap(b).Some?
    ensures PlainText(PrintNsap(b).value)
  {
    ExplodeLower(b);
    HexPlusless(Explode(b));
    hide Explode;
    if ReadOctets(b).None? {
      assert PlainText("NS+");
      PlainConcat("NS+", Explode(b));
    } else {
      var r := ReadOctets(b).value;
      var idi, dsp := FormPieces(b, r);
      IdiPlusless(b, Explode(b)[..2], idi, dsp, r.pad);
      Pieces(b, r.mark, Explode(b)[..2], idi, dsp);
      TablePlain(r.entry);
      var d := DspText(r.mark, 2 + |idi|, dsp);
      HexPlusless(d);
      hide *;
      FormPlain(r.entry.name, Strip(r.pad, idi), r.mark, d);
    }
  }

  lemma FormPlain(name: string, idi: string, mark: Mark, d: string)
    requires Plain(name) && 'A' <= name[0] <= 'Z' && Plusless(idi) && Plusless(d)
    ensures PlainText(FormOf(name, idi, mark, d))
  {
    var tail := if d == [] then "" else "+" + [MarkChar(mark)] + d;
    assert '|' !in tail && '=' !in tail;
    assert PlainText(name + "+");
    PlainConcat(name + "+", idi);
    PlainConcat(name + "+" + idi, tail);
  }

  /** Printed addresses keep clear of the separators too. */
  lemma NetTextPlain(table: seq<Community>, a: NetAddr)
    requires Sound(table, a) && NetText(table, a).Some? && PlainTable(table)
    ensures PlainText(NetText(table, a).value)
  {
    hide Macro2Comm, LeadText, PlainText, AllDigits;
    var own := Own(table, a.community).value;
    match a {
      case NsapAddr(_, b) => NsapPlain(b);
      case TcpAddr(_, domain, port, tset) =>
        LeadPlain(own.value.value);
        var q: Quad :| domain == Dotted(q);
        DottedPlusless(q);
        PortPlain(port, tset);
        PlainConcat(LeadText(own.value.value), domain);
        PlainConcat(LeadText(own.value.value) + domain, PortText(port, tset));
      case X25Addr(_, dte, pid, cudf) =>
        DigitsPlusless(dte);
        FieldPlain(pid, cudf);
        if X121Form(a) {
          X121Plain();
          PlainConcat("X121+", dte);
        } else {
          LeadPlain(own.value.value);
          PlainConcat(LeadText(own.value.value), dte);
          PlainConcat(LeadText(own.value.value) + dte, FieldText(pid, cudf));
        }
    }
  }

  lemma X121Plain()
    ensures PlainText("X121+")
  {
  }

  /** The macro still stands for its value: its name is not bound anew, and keeps clear of
      the separators. */
  predicate Current(book: seq<Macro>, m: Macro) {
    PlainName(m.name) && Lookup(book, m.name).Some? && Lookup(book, m.name).value.value == m.value
  }

  /** The macro chosen for a text: none, or what value2macro finds, its name clear of the
      separators. */
  ghost predicate Choice(book: seq<Macro>, text: string, m: Option<Macro>) {
    m.Some? ==> LongestFit(book, text, m) && PlainName(m.value.name)
  }

  /** With names distinct ignoring case every macro chosen is current. */
  lemma DistinctNamesCurrent(book: seq<Macro>, text: string, m: Option<Macro>)
    requires DistinctNames(book) && PlainBook(book) && LongestFit(book, text, m)
    ensures Choice(book, text, m) && (m.Some? ==> Current(book, m.value))
  {
    if m.Some? {
      LookupDistinct(book, m.value);
    }
  }

  /** The text as it is printed with the chosen macro. */
  function Shown(m: Option<Macro>, text: string): string {
    if m.Some? && Fits(m.value, text) then Abbreviate(m, text) else text
  }

  /** A text as it is shown can be parsed; it expands to itself when its macro is current. */
  lemma ShownPiece(book: seq<Macro>, m: Option<Macro>, text: string)
    requires PlainText(text) && Choice(book, text, m)
    ensures Piece(book, Shown(m, text))
    ensures (m.Some? ==> Current(book, m.value)) ==> Expand(book, Shown(m, text)) == Some(text)
  {
    if m.None? {
      CutNone(text, '=');
    } else {
      ExpandAbbreviate(book, m, text);
      var rest := text[|m.value.value|..];
      CutAt(m.value.name, '=', rest);
      assert forall c :: c in rest ==> c in text;
      assert Same(m.value.name, m.value.name);
    }
  }

  // ---------------------------------------------------------------- the round trip

  lemma {:induction false} TextsEach(table: seq<Community>, addrs: seq<NetAddr>, marks: seq<Option<Macro>>)
    requires |marks| == |addrs| && Texts(table, addrs, marks).Some?
    ensures |Texts(table, addrs, marks).value| == |addrs|
    ensures forall i :: 0 <= i < |addrs| ==>
              (NetText(table, addrs[i]).Some?
               && Texts(table, addrs, marks).value[i] == Shown(marks[i], NetText(table, addrs[i]).value))
  {
    hide NetText, Shown;
    if addrs != [] {
      TextsEach(table, addrs[..|addrs| - 1], marks[..|addrs| - 1]);
    }
  }

  /** What was printed: sound addresses under community values clear of the separators, each
      with no macro or with one of the longest fitting value. */
  ghost predicate Fair(table: seq<Community>, book: seq<Macro>, a: Paddr, marks: seq<Option<Macro>>) {
    && PlainTable(table) && |marks| == |a.addrs|
    && (forall i :: 0 <= i < |a.addrs| ==> Sound(table, a.addrs[i]))
    && (forall i :: 0 <= i < |a.addrs| && NetText(table, a.addrs[i]).Some?
                    ==> Choice(book, NetText(table, a.addrs[i]).value, marks[i]))
  }

  /** The macros printed still stand for their values. */
  predicate AllCurrent(book: seq<Macro>, marks: seq<Option<Macro>>) {
    forall i :: 0 <= i < |marks| && marks[i].Some? ==> Current(book, marks[i].value)
  }

  lemma PiecesFair(table: seq<Community>, book: seq<Macro>, a: Paddr, marks: seq<Option<Macro>>)
    requires Fair(table, book, a, marks) && Texts(table, a.addrs, marks).Some?
    ensures var texts := Texts(table, a.addrs, marks).value;
            && |texts| == |a.addrs|
            && forall i :: 0 <= i < |texts| ==>
                 && NetText(table, a.addrs[i]).Some? && Piece(book, texts[i])
                 && texts[i] == Shown(marks[i], NetText(table, a.addrs[i]).value)
                 && (AllCurrent(book, marks) ==> Expand(book, texts[i]) == Some(NetText(table, a.addrs[i]).value))
  {
    TextsEach(table, a.addrs, marks);
    hide NetText, Shown, Piece, Expand, PlainTable, Sound, Choice, Texts, Current;
    var texts := Texts(table, a.addrs, marks).value;
    forall i | 0 <= i < |texts|
      ensures NetText(table, a.addrs[i]).Some? && Piece(book, texts[i])
      ensures AllCurrent(book, marks) ==> Expand(book, texts[i]) == Some(NetText(table, a.addrs[i]).value)
    {
      NetTextPlain(table, a.addrs[i]);
      ShownPiece(book, marks[i], NetText(table, a.addrs[i]).value);
    }
  }

  /** No parse holds more addresses than there is room for. */
  lemma {:induction false} ParseBounded(table: seq<Community>, book: seq<Macro>, n: nat, s: string)
    requires n <= NTADDR
    ensures var p := ParseList(table, book, n, s); !p.Refused? ==> n + |p.addrs| <= NTADDR
    decreases |s|
  {
    hide ParseNet, Gate, Expand, IndexOf;
    if s != [] && n < NTADDR {
      ParseBounded(table, book, n + 1, After(s, '|'));
    }
  }

  /** Printing a presentation address, with any macros, and parsing the text: the same
      selectors at the same layers and the same list come back if and only if everything fits
      and each text shown stands for its address. */
  lemma PaddrReads(table: seq<Community>, book: seq<Macro>, a: Paddr, marks: seq<Option<Macro>>)
    requires Fair(table, book, a, marks) && PrintPaddr(table, a, marks).Some?
    ensures ParsePaddr(table, book, PrintPaddr(table, a, marks).value) == Some(a)
            <==> SelsFit(a) && |a.addrs| <= NTADDR
                 && forall i :: 0 <= i < |a.addrs| ==> ShownMeans(table, book, marks[i], a.addrs[i])
  {
    PiecesFair(table, book, a, marks);
    var texts := Texts(table, a.addrs, marks).value;
    var bars := Bars(texts);
    BarsStop(book, texts);
    SelsBack(a, bars);
    assert PrintPaddr(table, a, marks) == Some(SelsText(a) + bars);
    if SelsFit(a) {
      ParsedAs(table, book, SelsText(a) + bars, Sels(a), bars);
      if |a.addrs| <= NTADDR {
        ListBack(table, book, 0, texts);
        MeantEach(table, book, texts, a.addrs);
        AlignedList(a, MeantAll(table, book, texts));
        ShownAll(table, book, a.addrs, marks, texts);
        hide *;
      } else {
        ParseBounded(table, book, 0, bars);
      }
    } else {
      ParsedNot(table, book, SelsText(a) + bars);
    }
  }

  /** The text shown for an address is read as that address. */
  predicate ShownMeans(table: seq<Community>, book: seq<Macro>, m: Option<Macro>, a: NetAddr) {
    NetText(table, a).Some? && Meant(table, book, Shown(m, NetText(table, a).value)) == Some(a)
  }

  lemma ShownAll(table: seq<Community>, book: seq<Macro>, addrs: seq<NetAddr>, marks: seq<Option<Macro>>,
                 texts: seq<string>)
    requires |marks| == |addrs| == |texts|
    requires forall i :: 0 <= i < |texts| ==>
               NetText(table, addrs[i]).Some? && texts[i] == Shown(marks[i], NetText(table, addrs[i]).value)
    ensures (forall i :: 0 <= i < |addrs| ==> ShownMeans(table, book, marks[i], addrs[i]))
            <==> forall i :: 0 <= i < |texts| ==> Meant(table, book, texts[i]) == Some(addrs[i])
  {
    hide NetText, Meant, Shown;
    forall i | 0 <= i < |texts|
      ensures ShownMeans(table, book, marks[i], addrs[i]) <==> Meant(table, book, texts[i]) == Some(addrs[i])
    {
    }
  }

  lemma ParsedNot(table: seq<Community>, book: seq<Macro>, s: string)
    requires TakeSels(3, s).None?
    ensures ParsePaddr(table, book, s).None?
  {
    hide TakeSels, ParseList;
  }

  /** With macros that are current, or none, the address comes back if and only if everything
      fits and each network address is Readable. */
  lemma PaddrRoundTrip(table: seq<Community>, book: seq<Macro>, a: Paddr, marks: seq<Option<Macro>>)
    requires Fair(table, book, a, marks) && AllCurrent(book, marks) && PrintPaddr(table, a, marks).Some?
    ensures ParsePaddr(table, book, PrintPaddr(table, a, marks).value) == Some(a)
            <==> SelsFit(a) && |a.addrs| <= NTADDR
                 && forall i :: 0 <= i < |a.addrs| ==>
                      NetText(table, a.addrs[i]).Some?
                      && Readable(table, a.addrs[i], NetText(table, a.addrs[i]).value)
  {
    PaddrReads(table, book, a, marks);
    PiecesFair(table, book, a, marks);
    hide ParsePaddr, PrintPaddr, SelsFit, Meant, Shown, Readable, NetText, Sound, Expand, Piece, AllCurrent;
    forall i | 0 <= i < |a.addrs|
      ensures ShownMeans(table, book, marks[i], a.addrs[i])
              <==> NetText(table, a.addrs[i]).Some?
                   && Readable(table, a.addrs[i], NetText(table, a.addrs[i]).value)
    {
      assert Sound(table, a.addrs[i]);
      MeantReadable(table, book, Shown(marks[i], NetText(table, a.addrs[i]).value), a.addrs[i]);
    }
  }

  lemma ParsedAs(table: seq<Community>, book: seq<Macro>, s: string, sels: seq<Selector>, rest: string)
    requires TakeSels(3, s) == Some((sels, rest)) && |sels| <= 3
    ensures ParsePaddr(table, book, s) == match ParseList(table, book, 0, rest)
                                          case Refused => None
                                          case All(addrs) => Some(Aligned(sels, addrs))
                                          case Full(addrs) => Some(Aligned([], addrs))
  {
    hide TakeSels, ParseList, Aligned;
  }

  lemma MeantReadable(table: seq<Community>, book: seq<Macro>, piece: string, a: NetAddr)
    requires Sound(table, a) && NetText(table, a).Some? && Expand(book, piece) == NetText(table, a)
    ensures Meant(table, book, piece) == Some(a) <==> Readable(table, a, NetText(table, a).value)
  {
    hide Sound, NetText, Readable, Expand;
    NetRoundTrip(table, a);
  }

  lemma AlignedList(a: Paddr, l: Option<seq<NetAddr>>)
    ensures l.Some? ==> (Aligned(Sels(a), l.value) == a <==> l.value == a.addrs)
    ensures l == Some(a.addrs) <==> l.Some? && l.value == a.addrs
  {
  }

  lemma BarsStop(book: seq<Macro>, texts: seq<string>)
    requires forall i :: 0 <= i < |texts| ==> Piece(book, texts[i])
    ensures Stops(Bars(texts))
  {
    if texts != [] {
      hide Expand;
      assert Piece(book, texts[0]);
      assert texts == [texts[0]] + texts[1..];
      if |texts| > 1 {
        BarsFront(texts[0], texts[1..]);
      }
    }
  }

  // ---------------------------------------------------------------- one address too many

  predicate Valid(table: seq<Community>, book: seq<Macro>, piece: string) {
    Piece(book, piece) && Meant(table, book, piece).Some?
  }

  predicate AllValid(table: seq<Community>, book: seq<Macro>, pieces: seq<string>) {
    forall i :: 0 <= i < |pieces| ==> Valid(table, book, pieces[i])
  }

  /** What the first k pieces stand for. */
  function Firsts(table: seq<Community>, book: seq<Macro>, k: nat, pieces: seq<string>): (r: seq<NetAddr>)
    requires k <= |pieces| && AllValid(table, book, pieces)
    ensures |r| == k
  {
    if k == 0 then []
    else
      assert Valid(table, book, pieces[0]);
      [Meant(table, book, pieces[0]).value] + Firsts(table, book, k - 1, pieces[1..])
  }

  lemma {:induction false} FirstsMeant(table: seq<Community>, book: seq<Macro>, k: nat, pieces: seq<string>)
    requires k <= |pieces| && AllValid(table, book, pieces)
    ensures MeantAll(table, book, pieces[..k]) == Some(Firsts(table, book, k, pieces))
  {
    hide Meant, Piece;
    if k > 0 {
      FirstsMeant(table, book, k - 1, pieces[1..]);
      assert pieces[..k][1..] == pieces[1..][..k - 1];
      assert Valid(table, book, pieces[0]);
    }
  }

  lemma {:induction false} ListFull(table: seq<Community>, book: seq<Macro>, n: nat, pieces: seq<string>)
    requires n <= NTADDR < n + |pieces| && AllValid(table, book, pieces)
    ensures ParseList(table, book, n, Bars(pieces)) == Full(Firsts(table, book, NTADDR - n, pieces))
    decreases |pieces|
  {
    hide Piece, Meant, ParseList, Bars;
    var first, rest := pieces[0], pieces[1..];
    assert pieces == [first] + rest;
    assert Valid(table, book, first);
    BarsCases(first, rest);
    if n == NTADDR {
      FullStop(table, book, first, Bars(rest), rest == []);
    } else {
      ListFull(table, book, n + 1, rest);
      ListStep(table, book, n, first, Bars(rest), false);
    }
  }

  lemma BarsCases(first: string, rest: seq<string>)
    ensures Bars([first] + rest) == if rest == [] then first else first + "|" + Bars(rest)
    ensures rest == [] ==> Bars(rest) == ""
  {
    if rest != [] {
      BarsFront(first, rest);
    } else {
      assert [first] + rest == [first];
    }
  }

  lemma ValidPieces(table: seq<Community>, book: seq<Macro>, pieces: seq<string>)
    requires AllValid(table, book, pieces)
    ensures forall i :: 0 <= i < |pieces| ==> Piece(book, pieces[i])
  {
    forall i | 0 <= i < |pieces|
      ensures Piece(book, pieces[i])
    {
      assert Valid(table, book, pieces[i]);
    }
  }

  lemma FullStop(table: seq<Community>, book: seq<Macro>, piece: string, rest: string, last: bool)
    requires Piece(book, piece) && Meant(table, book, piece).Some? && (last ==> rest == [])
    ensures ParseList(table, book, NTADDR, if last then piece else piece + "|" + rest) == Full([])
  {
    hide ParseNet, Gate, Expand;
    GateFirst(table, Expand(book, piece).value);
    if last {
      CutNone(piece, '|');
    } else {
      CutAt(piece, '|', rest);
      assert piece + ['|'] + rest == piece + "|" + rest;
    }
  }

  /** A text with more than NTADDR addresses is taken, with the first ones and with no
      selector at all: str2paddr returns before it copies them. */
  lemma TooManyLoseSelectors(table: seq<Community>, book: seq<Macro>, a: Paddr, pieces: seq<string>)
    requires SelsFit(a)
    requires |pieces| > NTADDR && AllValid(table, book, pieces)
    ensures var r := ParsePaddr(table, book, SelsText(a) + Bars(pieces));
            r.Some? && r.value.psel == [] && r.value.ssel == [] && r.value.tsel == []
            && MeantAll(table, book, pieces[..NTADDR]) == Some(r.value.addrs) && |r.value.addrs| == NTADDR
  {
    ListFull(table, book, 0, pieces);
    FirstsMeant(table, book, NTADDR, pieces);
    ValidPieces(table, book, pieces);
    BarsStop(book, pieces);
    SelsBack(a, Bars(pieces));
    ParsedAs(table, book, SelsText(a) + Bars(pieces), Sels(a), Bars(pieces));
    assert Aligned([], Firsts(table, book, NTADDR, pieces)) == Paddr([], [], [], Firsts(table, book, NTADDR, pieces));
    hide *;
  }

  // ---------------------------------------------------------------- the parser's loop

  /** What the list parser returns that already has l. */
  function Prepend(l: seq<NetAddr>, p: Parsed): Parsed {
    match p
    case Refused => Refused
    case All(m) => All(l + m)
    case Full(m) => Full(l + m)
  }

  lemma PrependCons(l: seq<NetAddr>, a: NetAddr, p: Parsed)
    ensures Prepend(l, Cons(a, p)) == Prepend(l + [a], p)
    ensures Prepend([], p) == p
  {
    match p {
      case Refused =>
      case All(m) =>
        assert l + ([a] + m) == l + [a] + m && [] + m == m;
      case Full(m) =>
        assert l + ([a] + m) == l + [a] + m && [] + m == m;
    }
  }

  /** The result once the selectors and the list are there. */
  function Finish(sels: seq<Selector>, p: Parsed): Option<Paddr>
    requires |sels| <= 3
  {
    match p
    case Refused => None
    case All(addrs) => Some(Aligned(sels, addrs))
    case Full(addrs) => Some(Aligned([], addrs))
  }

  /** What str2paddr returns from the middle of its loop. */
  function Resume(table: seq<Community>, book: seq<Macro>, state: nat, sels: seq<Selector>, addrs: seq<NetAddr>,
                  cp: string): Option<Paddr>
    requires state <= 3 && |sels| <= 3 && (state < 3 ==> |sels| == state)
  {
    if state == 3 then Finish(sels, Prepend(addrs, ParseList(table, book, |addrs|, cp)))
    else
      var more := TakeSels(3 - state, cp);
      if more.None? then None else Finish(sels + more.value.0, ParseList(table, book, 0, more.value.1))
  }

  lemma ResumeStart(table: seq<Community>, book: seq<Macro>, s: string)
    ensures ParsePaddr(table, book, s) == Resume(table, book, 0, [], [], s)
  {
    hide TakeSels, ParseList;
    var more := TakeSels(3, s);
    assert more.Some? ==> [] + more.value.0 == more.value.0;
  }

  lemma ResumeSel(table: seq<Community>, book: seq<Macro>, sels: seq<Selector>, cp: string)
    requires |sels| < 3 && cp != [] && SelStart(cp[0])
    ensures var one := TakeSel(cp);
            Resume(table, book, |sels|, sels, [], cp)
            == if one.None? || one.value.1 == [] || one.value.1[0] != '/' then None
               else Resume(table, book, |sels| + 1, sels + [one.value.0], [], one.value.1[1..])
  {
    hide TakeSel, ParseList, Aligned, SelStart;
    var one := TakeSel(cp);
    if one.Some? && one.value.1 != [] && one.value.1[0] == '/' {
      var rest := one.value.1[1..];
      var more := TakeSels(3 - |sels| - 1, rest);
      if more.Some? {
        assert sels + ([one.value.0] + more.value.0) == sels + [one.value.0] + more.value.0;
        assert sels + [one.value.0] + [] == sels + [one.value.0];
        PrependCons([], NsapAddr(0, []), ParseList(table, book, 0, rest));
      }
    }
  }

  lemma ResumeList(table: seq<Community>, book: seq<Macro>, sels: seq<Selector>, cp: string)
    requires |sels| < 3 && cp != [] && !SelStart(cp[0])
    ensures Resume(table, book, |sels|, sels, [], cp) == Resume(table, book, 3, sels, [], cp)
  {
    hide ParseList, Aligned;
    assert sels + [] == sels;
    PrependCons([], NsapAddr(0, []), ParseList(table, book, 0, cp));
  }

  lemma ResumeAddr(table: seq<Community>, book: seq<Macro>, sels: seq<Selector>, addrs: seq<NetAddr>, cp: string,
                   a: NetAddr, rest: string)
    requires |sels| <= 3
    requires ParseList(table, book, |addrs|, cp) == Cons(a, ParseList(table, book, |addrs| + 1, rest))
    ensures Resume(table, book, 3, sels, addrs, cp) == Resume(table, book, 3, sels, addrs + [a], rest)
  {
    hide ParseList, Aligned;
    PrependCons(addrs, a, ParseList(table, book, |addrs| + 1, rest));
  }

  lemma ResumeStop(table: seq<Community>, book: seq<Macro>, sels: seq<Selector>, addrs: seq<NetAddr>, cp: string)
    requires |sels| <= 3
    ensures ParseList(table, book, |addrs|, cp) == Refused ==> Resume(table, book, 3, sels, addrs, cp) == None
    ensures ParseList(table, book, |addrs|, cp) == Full([])
            ==> Resume(table, book, 3, sels, addrs, cp) == Some(Aligned([], addrs))
  {
    hide ParseList, Aligned;
    assert addrs + [] == addrs;
  }

  lemma ResumeEnd(table: seq<Community>, book: seq<Macro>, state: nat, sels: seq<Selector>, addrs: seq<NetAddr>)
    requires state <= 3 && |sels| <= 3 && (state < 3 ==> |sels| == state && addrs == [])
    ensures Resume(table, book, state, sels, addrs, []) == Some(Aligned(sels, addrs))
  {
    hide Aligned;
    assert addrs + [] == addrs && sels + [] == sels;
  }

  /** str2paddr: state counts the selectors, and is 3 in front of the addresses. */
  method ReadPaddr(table: seq<Community>, macros: MacroTable, s: string) returns (r: Option<Paddr>)
    requires macros.Valid() && Ascii(s)
    ensures r == ParsePaddr(table, macros.book, s)
  {
    hide TakeSel, ParsePaddr, ParseList, Resume, Ascii;
    var cp, state := s, 0;
    var sels: seq<Selector> := [];
    var addrs: seq<NetAddr> := [];
    ResumeStart(table, macros.book, s);
    while cp != []
      invariant state <= 3 && |sels| <= 3 && Ascii(cp) && (state < 3 ==> |sels| == state && addrs == [])
      invariant ParsePaddr(table, macros.book, s) == Resume(table, macros.book, state, sels, addrs, cp)
      decreases |cp|, 3 - state
    {
      if state < 3 && SelStart(cp[0]) {
        TakeShorter(cp);
        ResumeSel(table, macros.book, sels, cp);
        var one := TakeSel(cp);
        if one.None? || one.value.1 == [] || one.value.1[0] != '/' {
          return None;
        }
        sels, cp, state := sels + [one.value.0], one.value.1[1..], state + 1;
      } else if state < 3 {
        ResumeList(table, macros.book, sels, cp);
        state := 3;
      } else {
        var step := ReadOne(table, macros, |addrs|, cp);
        match step {
          case Stop(p) =>
            ResumeStop(table, macros.book, sels, addrs, cp);
            return if p.Refused? then None else Some(Aligned([], addrs));
          case Go(a, rest) =>
            ResumeAddr(table, macros.book, sels, addrs, cp, a, rest);
            addrs := addrs + [a];
            cp := rest;
        }
      }
    }
    ResumeEnd(table, macros.book, state, sels, addrs);
    r := Some(Aligned(sels, addrs));
  }

  lemma TakeShorter(s: string)
    requires s != [] && SelStart(s[0])
    ensures var one := TakeSel(s);
            one.Some? && one.value.1 != [] ==> |one.value.1[1..]| < |s| && (Ascii(s) ==> Ascii(one.value.1[1..]))
  {
    hide LeadingDigits, CharOctets, Implode, IndexOf;
  }

  lemma AsciiCut(s: string, c: char)
    ensures Ascii(s) ==> Ascii(Before(s, c)) && Ascii(After(s, c))
    ensures s != [] ==> |After(s, c)| < |s|
  {
  }

  /** One round of the list: an end to it, or an address and the text behind its '|'. */
  datatype Step = Stop(p: Parsed) | Go(a: NetAddr, rest: string)

  method ReadOne(table: seq<Community>, macros: MacroTable, n: nat, cp: string) returns (step: Step)
    requires macros.Valid() && Ascii(cp) && cp != []
    ensures match step
            case Stop(p) => ParseList(table, macros.book, n, cp) == p && (p.Refused? || p == Full([]))
            case Go(a, rest) =>
              ParseList(table, macros.book, n, cp) == Cons(a, ParseList(table, macros.book, n + 1, rest))
              && |rest| < |cp| && Ascii(rest)
  {
    hide Expand, ParseNet, Gate, Same, IndexOf;
    AsciiCut(cp, '|');
    var text := ReadPiece(macros, Before(cp, '|'));
    if text.None? {
      return Stop(Refused);
    }
    if !Gate(table, text.value) {
      return Stop(Refused);
    }
    if n >= NTADDR {
      return Stop(Full([]));
    }
    var a := ReadNet(table, text.value);
    step := if a.None? then Stop(Refused) else Go(a.value, After(cp, '|'));
  }

  /** The expansion of a macro at the front of an address. */
  method ReadPiece(macros: MacroTable, piece: string) returns (text: Option<string>)
    requires macros.Valid() && Ascii(piece)
    ensures text == Expand(macros.book, piece)
    ensures text.Some? ==> Ascii(text.value)
  {
    if !Has(piece, '=') {
      return Some(piece);
    }
    AsciiCut(piece, '=');
    var m := macros.Find(Before(piece, '='));
    text := if m.None? then None else Some(m.value.value + After(piece, '='));
  }

  // ---------------------------------------------------------------- the printer's loop

  /** _paddr2str, for all addresses or for `only` one: with compact zero every address is
      shortened by the macro with the longest value, with compact negative none is, and with
      compact positive every address is printed in its octet form. */
  method WritePaddr(table: seq<Community>, macros: MacroTable, a: Paddr, only: Option<NetAddr>, compact: int)
    returns (r: Option<string>, marks: seq<Option<Macro>>)
    requires macros.Valid()
    ensures var b := Selected(a, only);
            |marks| == |b.addrs| && r == if compact > 0 then PrintCompact(table, b) else PrintPaddr(table, b, marks)
    ensures var b := Selected(a, only);
            r.Some? && compact <= 0
            ==> forall i :: 0 <= i < |marks| ==> Marks(table, macros.book, compact, b.addrs[i], marks[i])
  {
    var b := Selected(a, only);
    if compact > 0 {
      r := WriteCompact(table, b);
      marks := seq(|b.addrs|, _ => None);
    } else {
      r, marks := WriteText(table, macros, b, compact);
    }
  }

  function Selected(a: Paddr, only: Option<NetAddr>): Paddr {
    if only.None? then a else a.(addrs := [only.value])
  }

  method WriteText(table: seq<Community>, macros: MacroTable, a: Paddr, compact: int)
    returns (r: Option<string>, marks: seq<Option<Macro>>)
    requires macros.Valid() && compact <= 0
    ensures |marks| == |a.addrs| && r == PrintPaddr(table, a, marks)
    ensures r.Some? ==> forall i :: 0 <= i < |marks| ==> Marks(table, macros.book, compact, a.addrs[i], marks[i])
  {
    hide NetText, Marks, Shown, Texts, Bars, SelsText;
    BarsCases("", []);
    TextsEmpty(table, a.addrs);
    var head := SelsText(a);
    var n := |a.addrs|;
    marks := [];
    if n == 0 && head == "" {
      marks := seq(n, _ => None);
      return None, marks;
    }
    var texts: seq<string> := [];
    var list := "";
    for k := 0 to n
      invariant |marks| == k && |texts| == k && list == Bars(texts)
      invariant Texts(table, a.addrs[..k], marks) == Some(texts)
      invariant forall i :: 0 <= i < k ==> Marks(table, macros.book, compact, a.addrs[i], marks[i])
    {
      var text := NetText(table, a.addrs[k]);
      if text.None? {
        marks := seq(n, _ => None);
        TextsNone(table, a.addrs, marks, k);
        return None, marks;
      }
      var m := ChooseMark(table, macros, compact, a.addrs[k]);
      var shown := Shown(m, text.value);
      TextsStep(table, a.addrs, marks, k, m);
      BarsStep(texts, shown);
      list := if k == 0 then shown else list + "|" + shown;
      marks := marks + [m];
      texts := texts + [shown];
    }
    assert a.addrs[..n] == a.addrs;
    r := Some(head + list);
  }

  /** Which macro compact asks for. */
  ghost predicate Marks(table: seq<Community>, book: seq<Macro>, compact: int, a: NetAddr, m: Option<Macro>) {
    var text := NetText(table, a);
    text.Some? ==> if compact == 0 then LongestFit(book, text.value, m) else m.None?
  }

  method ChooseMark(table: seq<Community>, macros: MacroTable, compact: int, a: NetAddr) returns (m: Option<Macro>)
    requires macros.Valid() && NetText(table, a).Some?
    ensures Marks(table, macros.book, compact, a, m)
  {
    m := None;
    if compact == 0 {
      m := macros.FindValue(NetText(table, a).value);
    }
  }

  lemma TextsEmpty(table: seq<Community>, addrs: seq<NetAddr>)
    ensures Texts(table, addrs[..0], []) == Some([])
  {
  }

  lemma BarsStep(texts: seq<string>, last: string)
    ensures Bars(texts + [last]) == if texts == [] then last else Bars(texts) + "|" + last
  {
    assert (texts + [last])[..|texts|] == texts;
  }

  lemma TextsStep(table: seq<Community>, addrs: seq<NetAddr>, marks: seq<Option<Macro>>, k: nat, m: Option<Macro>)
    requires k < |addrs| && |marks| == k && Texts(table, addrs[..k], marks).Some? && NetText(table, addrs[k]).Some?
    ensures Texts(table, addrs[..k + 1], marks + [m])
         == Some(Texts(table, addrs[..k], marks).value + [Shown(m, NetText(table, addrs[k]).value)])
  {
    hide NetText, Shown;
    assert addrs[..k + 1][..k] == addrs[..k] && (marks + [m])[..k] == marks;
  }

  lemma {:induction false} TextsNone(table: seq<Community>, addrs: seq<NetAddr>, marks: seq<Option<Macro>>, k: nat)
    requires |marks| == |addrs| && k < |addrs| && NetText(table, addrs[k]).None?
    ensures Texts(table, addrs, marks).None?
  {
    if k < |addrs| - 1 {
      TextsNone(table, addrs[..|addrs| - 1], marks[..|addrs| - 1], k);
    }
  }

  // ---------------------------------------------------------------- the octet form as text

  function CompactText(table: seq<Community>, a: NetAddr): Option<string> {
    var n := C.Na2Norm(table, a);
    if n.None? then None else Some("NS+" + Explode(n.value))
  }

  function CompactTexts(table: seq<Community>, addrs: seq<NetAddr>): Option<seq<string>> {
    if addrs == [] then Some([])
    else
      var n := |addrs| - 1;
      var front, last := CompactTexts(table, addrs[..n]), CompactText(table, addrs[n]);
      if front.None? || last.None? then None else Some(front.value + [last.value])
  }

  function PrintCompact(table: seq<Community>, a: Paddr): Option<string> {
    var texts := CompactTexts(table, a.addrs);
    if texts.None? || (a.addrs == [] && SelsText(a) == "") then None
    else Some(SelsText(a) + Bars(texts.value))
  }

  method WriteCompact(table: seq<Community>, a: Paddr) returns (r: Option<string>)
    ensures r == PrintCompact(table, a)
  {
    hide Bars, SelsText, CompactText;
    var head, list := SelsText(a), "";
    if |a.addrs| == 0 && head == "" {
      return None;
    }
    BarsCases("", []);
    var texts: seq<string> := [];
    for k := 0 to |a.addrs|
      invariant |texts| == k && list == Bars(texts) && CompactTexts(table, a.addrs[..k]) == Some(texts)
    {
      assert a.addrs[..k + 1][..k] == a.addrs[..k];
      var text := CompactText(table, a.addrs[k]);
      if text.None? {
        CompactNone(table, a.addrs, k);
        return None;
      }
      BarsStep(texts, text.value);
      list := if k == 0 then text.value else list + "|" + text.value;
      texts := texts + [text.value];
    }
    assert a.addrs[..|a.addrs|] == a.addrs;
    r := Some(head + list);
  }

  lemma {:induction false} CompactNone(table: seq<Community>, addrs: seq<NetAddr>, k: nat)
    requires k < |addrs| && CompactText(table, addrs[k]).None?
    ensures CompactTexts(table, addrs).None?
  {
    if k < |addrs| - 1 {
      CompactNone(table, addrs[..|addrs| - 1], k);
    }
  }

  lemma {:induction false} CompactEach(table: seq<Community>, addrs: seq<NetAddr>)
    requires CompactTexts(table, addrs).Some?
    ensures |CompactTexts(table, addrs).value| == |addrs|
    ensures forall i :: 0 <= i < |addrs| ==> CompactText(table, addrs[i]) == Some(CompactTexts(table, addrs).value[i])
  {
    hide CompactText;
    if addrs != [] {
      CompactEach(table, addrs[..|addrs| - 1]);
    }
  }

  /** One address in octet form is read as the NSAP of those octets. */
  lemma CompactPiece(table: seq<Community>, book: seq<Macro>, b: seq<Octet>)
    requires |b| <= NASIZE && ByText(table, "NS+" + Explode(b)).Some?
    ensures var text := "NS+" + Explode(b);
            Piece(book, text) && Meant(table, book, text) == Some(NsapAddr(NsapSubnet(table, text, b), b))
  {
    var text := "NS+" + Explode(b);
    ExplodeLower(b);
    HexPlusless(Explode(b));
    assert PlainText("NS+");
    PlainConcat("NS+", Explode(b));
    CutNone(text, '=');
    NsHas(Explode(b));
    NsBack(TextSubnet(table, text), b);
    SettleNsap(table, text, b, "");
    hide Explode, ParseBody, Settle;
    GateOpen(table, text);
  }

  /** Some community's value starts the text of the octet form. */
  predicate Claimed(table: seq<Community>, a: NetAddr) {
    CompactText(table, a).Some? ==> ByText(table, CompactText(table, a).value).Some?
  }

  lemma {:induction false} CompactThere(table: seq<Community>, addrs: seq<NetAddr>)
    requires forall i :: 0 <= i < |addrs| ==> C.Encodable(table, addrs[i])
    ensures CompactTexts(table, addrs).Some?
  {
    hide C.Na2Norm, C.Encodable;
    if addrs != [] {
      var n := |addrs| - 1;
      CompactThere(table, addrs[..n]);
      EncodableThere(table, addrs[n]);
    }
  }

  lemma EncodableThere(table: seq<Community>, a: NetAddr)
    requires C.Encodable(table, a)
    ensures C.Na2Norm(table, a).Some? && |C.Na2Norm(table, a).value| <= NASIZE
  {
    C.EncodedFits(table, a);
  }

  /** A list of NSAPs with these octets. */
  predicate OctetForms(table: seq<Community>, addrs: seq<NetAddr>, got: seq<NetAddr>) {
    |got| == |addrs| && forall i :: 0 <= i < |addrs| ==>
      got[i].NsapAddr? && C.Na2Norm(table, addrs[i]) == Some(got[i].address)
  }

  /** The two codecs joined: the octet form printed as text comes back as the same selectors
      and the octets of every address, which norm2na turns into the address's normal form if
      and only if it survives. */
  lemma CompactRoundTrip(table: seq<Community>, book: seq<Macro>, a: Paddr)
    requires SelsFit(a) && |a.addrs| <= NTADDR
    requires forall i :: 0 <= i < |a.addrs| ==> C.Encodable(table, a.addrs[i]) && Claimed(table, a.addrs[i])
    requires a.addrs != [] || SelsText(a) != ""
    ensures PrintCompact(table, a).Some?
    ensures var r := ParsePaddr(table, book, PrintCompact(table, a).value);
            && r.Some? && r.value == a.(addrs := r.value.addrs) && OctetForms(table, a.addrs, r.value.addrs)
            && forall i :: 0 <= i < |a.addrs| ==>
                 (C.Norm2Na(table, r.value.addrs[i].address) == C.Decoded(C.Normal(a.addrs[i]))
                  <==> T.Survives(table, a.addrs[i]))
  {
    hide ParseList, Bars, SelsText, TakeSels, CompactTexts, C.Na2Norm, C.Norm2Na, T.Survives, C.Normal, Explode,
         Meant, Piece, ByText, NsapSubnet, C.WellFormed, C.Housed;
    CompactThere(table, a.addrs);
    var texts := CompactTexts(table, a.addrs).value;
    CompactEach(table, a.addrs);
    var got := seq(|texts|, i requires 0 <= i < |texts| =>
      NsapAddr(NsapSubnet(table, texts[i], C.Na2Norm(table, a.addrs[i]).value), C.Na2Norm(table, a.addrs[i]).value));
    forall i | 0 <= i < |texts|
      ensures Piece(book, texts[i]) && Meant(table, book, texts[i]) == Some(got[i])
      ensures C.Norm2Na(table, got[i].address) == C.Decoded(C.Normal(a.addrs[i])) <==> T.Survives(table, a.addrs[i])
    {
      assert C.Encodable(table, a.addrs[i]) && Claimed(table, a.addrs[i]);
      EncodableThere(table, a.addrs[i]);
      T.RoundTrip(table, a.addrs[i]);
      assert CompactText(table, a.addrs[i]) == Some(texts[i]);
      CompactPiece(table, book, C.Na2Norm(table, a.addrs[i]).value);
    }
    ListBack(table, book, 0, texts);
    MeantEach(table, book, texts, got);
    BarsStop(book, texts);
    SelsBack(a, Bars(texts));
    AlignedSame(a, got);
    ParsedAs(table, book, SelsText(a) + Bars(texts), Sels(a), Bars(texts));
  }

  lemma AlignedSame(a: Paddr, got: seq<NetAddr>)
    ensures Aligned(Sels(a), got) == a.(addrs := got)
  {
  }
}
