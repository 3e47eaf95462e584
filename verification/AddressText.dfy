/** The text form of one network address: _paddr2str and the network-address branch of
    str2paddr in compat/isoaddrs.c. */
module AddressText {
  import opened Options
  import opened Digits
  import opened Addresses
  import opened Macros
  import opened NsapText
  import opened Tailoring

  // ---------------------------------------------------------------- choosing a community

  predicate ValueFits(c: Community, text: string) {
    c.value.Some? && c.value.value != [] && Prefix(c.value.value, text)
  }

  /** The community with the longest value that starts the text, the first of several. */
  function ByText(table: seq<Community>, text: string): (r: Option<Community>)
    ensures r.Some? ==> r.value in table && ValueFits(r.value, text)
    ensures forall c :: c in table && ValueFits(c, text) ==> r.Some? && |c.value.value| <= |r.value.value.value|
  {
    if table == [] then None
    else
      var n := |table| - 1;
      var best := ByText(table[..n], text);
      assert forall c :: c in table ==> c == table[n] || c in table[..n];
      if ValueFits(table[n], text) && (best.None? || |table[n].value.value| > |best.value.value.value|)
      then Some(table[n]) else best
  }

  /** bcmp against the address array, which is zero behind the address. */
  predicate PrefixFits(c: Community, b: seq<Octet>) {
    c.prefix != [] && forall i :: 0 <= i < |c.prefix| ==> c.prefix[i] == if i < |b| then b[i] else 0
  }

  function ByPrefix(table: seq<Community>, b: seq<Octet>): (r: Option<Community>)
    ensures r.Some? ==> r.value in table && PrefixFits(r.value, b)
    ensures forall c :: c in table && PrefixFits(c, b) ==> r.Some? && |c.prefix| <= |r.value.prefix|
  {
    if table == [] then None
    else
      var n := |table| - 1;
      var best := ByPrefix(table[..n], b);
      assert forall c :: c in table ==> c == table[n] || c in table[..n];
      if PrefixFits(table[n], b) && (best.None? || |table[n].prefix| > |best.value.prefix|)
      then Some(table[n]) else best
  }

  /** The loop over the table for a text. */
  method ScanValues(table: seq<Community>, text: string) returns (r: Option<Community>)
    ensures r == ByText(table, text)
  {
    hide Prefix;
    r := None;
    for i := 0 to |table|
      invariant r == ByText(table[..i], text)
    {
      assert table[..i + 1][..i] == table[..i];
      if ValueFits(table[i], text) && (r.None? || |table[i].value.value| > |r.value.value.value|) {
        r := Some(table[i]);
      }
    }
    assert table[..|table|] == table;
  }

  /** The loop over the table for an address. */
  method ScanPrefixes(table: seq<Community>, b: seq<Octet>) returns (r: Option<Community>)
    ensures r == ByPrefix(table, b)
  {
    hide PrefixFits;
    r := None;
    for i := 0 to |table|
      invariant r == ByPrefix(table[..i], b)
    {
      assert table[..i + 1][..i] == table[..i];
      if PrefixFits(table[i], b) && (r.None? || |table[i].prefix| > |r.value.prefix|) {
        r := Some(table[i]);
      }
    }
    assert table[..|table|] == table;
  }

  /** The test for an AFI at the start: all but the last character of the name, then a
      '+' where the name must end. */
  predicate StartsAfi(entries: seq<Afi>, text: string) {
    exists i :: 0 <= i < |entries| && LooksLike(entries[i].name, text)
  }

  predicate LooksLike(name: string, text: string) {
    |name| > 0 && |text| > |name| && text[..|name| - 1] == name[..|name| - 1] && text[|name|] == '+'
  }

  /** The checks made before there is room for another address. */
  predicate Gate(table: seq<Community>, text: string) {
    (ByText(table, text).Some? || StartsAfi(AFIS, text)) && Has(text, '+')
  }

  // ---------------------------------------------------------------- parsing

  const RFC1006 := "RFC-1006+"
  const X25_80 := "X.25(80)+"

  /** The leading digits of a text. */
  function LeadingDigits(s: string): (d: string)
    ensures |d| <= |s|
  {
    if s != [] && IsDigit(s[0]) then [s[0]] + LeadingDigits(s[1..]) else []
  }

  /** atoi and int2u16, for text that starts with neither sign nor blank. */
  function U16(s: string): (r: Option<nat>)
    ensures r.Some? ==> r.value < 65536
  {
    var n := Val(LeadingDigits(s));
    if n < 65536 then Some(n) else None
  }

  /** The text behind "RFC-1006+": a prefix, then host, port and transport set. */
  function ParseTcp(subnet: int, s: string): Option<NetAddr> {
    if !Has(s, '+') then None
    else
      var t := After(s, '+');
      var host, more := LiteralHost(Before(t, '+')), After(t, '+');
      if host.None? then None
      else if more == [] then Some(TcpAddr(subnet, Dotted(host.value), 0, 0))
      else
        var port := U16(Before(more, '+'));
        var tset := if After(more, '+') == [] then Some(0) else U16(After(more, '+'));
        if port.None? || tset.None? then None
        else Some(TcpAddr(subnet, Dotted(host.value), port.value, tset.value))
  }

  /** The text behind "X.25(80)+": a prefix, then the DTE and at most one field. */
  function ParseX25(subnet: int, s: string): Option<NetAddr> {
    if !Has(s, '+') then None
    else
      var t := After(s, '+');
      var dte, more := Before(t, '+'), After(t, '+');
      if !AllDigits(dte) || |dte| > NSAP_DTELEN + 1 then None
      else if more == [] then Some(X25Addr(subnet, dte, [], []))
      else if !Has(more, '+') then None
      else ParseField(subnet, dte, Before(more, '+'), After(more, '+'))
  }

  function ParseField(subnet: int, dte: string, field: string, hex: string): Option<NetAddr> {
    var v := Implode(hex);
    if Same(field, "CUDF") then
      if |hex| > 2 * CUDFSIZE || v.None? then None else Some(X25Addr(subnet, dte, [], v.value))
    else if Same(field, "PID") then
      if |hex| > 2 * NPSIZE || v.None? then None else Some(X25Addr(subnet, dte, v.value, []))
    else None
  }

  /** The switch behind the IDI. */
  function ParseDsp(subnet: int, e: Afi, idi: string, dsp: string): Option<NetAddr> {
    if !AllDigits(idi) then None
    else if Same(e.name, "X121") && dsp == [] then
      if |idi| > NSAP_DTELEN then None else Some(X25Addr(SUBNET_INT_X25, idi, [], []))
    else if dsp == [] || dsp[0] == 'd' || dsp[0] == 'x' || dsp[0] == 'l' then
      var b := ParseForm(e, idi, dsp);
      if b.None? then None else Some(NsapAddr(subnet, b.value))
    else if Prefix(RFC1006, dsp) then ParseTcp(subnet, dsp[|RFC1006|..])
    else if Prefix(X25_80, dsp) then ParseX25(subnet, dsp[|X25_80|..])
    else None
  }

  /** One network address behind its community. */
  function ParseBody(subnet: int, text: string): Option<NetAddr> {
    var name, rest := Before(text, '+'), After(text, '+');
    if Same(name, "NS") then
      var b := Fitting(Implode(rest));
      if b.None? then None else Some(NsapAddr(subnet, b.value))
    else
      var e := Named(AFIS, name);
      if e.None? then None else ParseDsp(subnet, e.value, Before(rest, '+'), After(rest, '+'))
  }

  /** The last step: an NSAP address belongs to the community with the longest prefix. */
  function Settle(table: seq<Community>, a: NetAddr): NetAddr {
    if a.NsapAddr? && ByPrefix(table, a.address).Some?
    then NsapAddr(ByPrefix(table, a.address).value.subnet, a.address) else a
  }

  function TextSubnet(table: seq<Community>, text: string): int {
    var c := ByText(table, text);
    if c.Some? then c.value.subnet else SUBNET_REALNS
  }

  /** str2paddr on one address, macros expanded. */
  function ParseNet(table: seq<Community>, text: string): Option<NetAddr> {
    if !Gate(table, text) then None
    else
      var a := ParseBody(TextSubnet(table, text), text);
      if a.None? then None else Some(Settle(table, a.value))
  }

  // ---------------------------------------------------------------- printing

  /** The community's value, with a '+' behind it. */
  function LeadText(v: string): string {
    if v != [] && v[|v| - 1] == '+' then v else v + "+"
  }

  function PortText(port: nat, tset: nat): string {
    if port == 0 then "" else "+" + Dec(port) + if tset == 0 then "" else "+" + Dec(tset)
  }

  function FieldText(pid: seq<Octet>, cudf: seq<Octet>): string {
    if pid != [] then "+PID+" + Explode(pid) else if cudf != [] then "+CUDF+" + Explode(cudf) else ""
  }

  /** _paddr2str on one address, without macros; None where it gives up with "NULLPA". */
  function NetText(table: seq<Community>, a: NetAddr): Option<string> {
    var own := Own(table, a.community);
    if own.None? || own.value.value.None? then None
    else
      var lead := LeadText(own.value.value.value);
      match a
      case NsapAddr(_, b) => PrintNsap(b)
      case TcpAddr(_, domain, port, tset) => Some(lead + domain + PortText(port, tset))
      case X25Addr(_, dte, pid, cudf) =>
        if X121Form(a) then Some("X121+" + dte) else Some(lead + dte + FieldText(pid, cudf))
  }

  // ---------------------------------------------------------------- what comes back

  /** A value that carries addresses of the tagged syntax: AFI, IDI, the tag as str2paddr
      spells it, and a prefix field.  macro2comm takes more: the tag in any case, and values
      without the field. */
  predicate Shaped(v: string, tag: string) {
    var r1 := After(v, '+');
    var r2 := After(r1, '+');
    var r3 := After(r2, '+');
    && Named(AFIS, Before(v, '+')).Some? && !Same(Before(v, '+'), "NS") && AllDigits(Before(r1, '+'))
    && Before(r2, '+') + ['+'] == tag && r3 != [] && After(r3, '+') == []
  }

  /** The value "X121", with or without a '+' behind it. */
  predicate JustX121(v: string) {
    After(v, '+') == [] && Same(Before(v, '+'), "X121")
  }

  /** The value of the address's own community. */
  function OwnValue(table: seq<Community>, a: NetAddr): string {
    var own := Own(table, a.community);
    if own.Some? && own.value.value.Some? then own.value.value.value else ""
  }

  /** What struct NSAPaddr can hold, and a community with a value; one that macro2comm takes
      where the value is printed. */
  ghost predicate Sound(table: seq<Community>, a: NetAddr) {
    var own := Own(table, a.community);
    own.Some? && own.value.value.Some?
    && (var v := own.value.value.value;
        match a
        case NsapAddr(_, b) => |b| <= NASIZE
        case TcpAddr(_, domain, port, tset) =>
          v != [] && Macro2Comm(v).Some? && (exists q: Quad :: domain == Dotted(q)) && port < 65536 && tset < 65536
        case X25Addr(_, dte, pid, cudf) =>
          (X121Form(a) || (v != [] && Macro2Comm(v).Some?))
          && AllDigits(dte) && |dte| <= NSAP_DTELEN && |pid| <= NPSIZE && |cudf| <= CUDFSIZE)
  }

  predicate IsX121(e: Afi) {
    e == X121
  }

  /** The NSAP addresses that survive as octets. */
  predicate Canonical(b: seq<Octet>) {
    var r := ReadOctets(b);
    if r.None? then true
    else
      var at := 2 + r.value.entry.idiLen;
      2 * |b| >= at
      && (var h := Explode(b);
          && AllDigits(h[2..at]) && PadGood(r.value.pad, h[2..at]) && DspGood(r.value.mark, at, h[at..])
          && (IsX121(r.value.entry) ==> h[at..] != []))
  }

  /** The community the parser gives to the NSAP address it read from the text. */
  function NsapSubnet(table: seq<Community>, text: string, b: seq<Octet>): int {
    if ByPrefix(table, b).Some? then ByPrefix(table, b).value.subnet else TextSubnet(table, text)
  }

  /** Exactly when the parser returns the address that was printed. */
  predicate Readable(table: seq<Community>, a: NetAddr, text: string) {
    match a
    case NsapAddr(community, b) =>
      && Canonical(b) && community == NsapSubnet(table, text, b)
      && (ReadOctets(b).None? ==> ByText(table, text).Some?)
    case TcpAddr(community, _, _, _) => Carried(OwnValue(table, a), a) && community == TextSubnet(table, text)
    case X25Addr(community, _, _, _) =>
      X121Form(a) || (Carried(OwnValue(table, a), a) && community == TextSubnet(table, text))
      || JustDigits(OwnValue(table, a), a)
  }

  /** What a value leaves of an address: all but a transport set without a port, or a CUDF
      behind a PID, when it is shaped; nothing otherwise. */
  predicate Carried(v: string, a: NetAddr)
    requires !a.NsapAddr?
  {
    if a.TcpAddr? then Shaped(v, RFC1006) && (a.port == 0 ==> a.tset == 0)
    else Shaped(v, X25_80) && (a.pid == [] || a.cudf == [])
  }

  /** Behind the value "X121" international digits alone come back too. */
  predicate JustDigits(v: string, a: NetAddr)
    requires a.X25Addr?
  {
    JustX121(v) && a.community == SUBNET_INT_X25 && a.pid == [] && a.cudf == []
  }

  // ---------------------------------------------------------------- cutting printed text

  /** A separator in the first part is the first separator of the whole. */
  lemma CutFront(a: string, c: char, b: string)
    requires Has(a, c)
    ensures Has(a + b, c) && Before(a + b, c) == Before(a, c) && After(a + b, c) == After(a, c) + b
  {
    var n := IndexOf(a, c);
    var m := IndexOf(a + b, c);
    assert (a + b)[n] == c;
    assert forall i :: 0 <= i < n ==> (a + b)[i] == a[i];
    assert m == n;
    assert (a + b)[..n] == a[..n];
    assert (a + b)[n + 1..] == a[n + 1..] + b;
  }

  /** What is printed of the rest of a value. */
  function Tail(r: string): string {
    if r == [] then [] else LeadText(r)
  }

  /** Cutting one field off a value with text behind it. */
  lemma TailCut(r: string, t: string)
    requires r != []
    ensures var s := LeadText(r) + t;
            Has(s, '+') && Before(s, '+') == Before(r, '+') && After(s, '+') == Tail(After(r, '+')) + t
  {
    var lead := LeadText(r);
    var n := IndexOf(r, '+');
    assert lead[|lead| - 1] == '+';
    if n == |r| {
      assert r[|r| - 1] != '+';
      CutAt(r, '+', []);
      assert lead == r + ['+'] + [];
    } else if r[|r| - 1] != '+' {
      CutFront(r, '+', "+");
      var u := After(r, '+');
      assert u != [] && u[|u| - 1] == r[|r| - 1];
    } else {
      var u := After(r, '+');
      assert u != [] ==> u[|u| - 1] == r[|r| - 1];
    }
    CutFront(lead, '+', t);
  }

  /** The last field of a value. */
  lemma LastField(r: string)
    requires r != [] && After(r, '+') == []
    ensures '+' !in Before(r, '+') && LeadText(r) == Before(r, '+') + ['+']
  {
    var n := IndexOf(r, '+');
    if n < |r| {
      assert n + 1 == |r|;
      assert r == r[..n] + ['+'];
    }
    assert forall i :: 0 <= i < n ==> r[i] != '+';
  }

  /** A text with a separator is its two parts. */
  lemma Rejoin(s: string)
    requires Has(s, '+')
    ensures s == Before(s, '+') + ['+'] + After(s, '+')
  {
    var n := IndexOf(s, '+');
    assert s == s[..n] + [s[n]] + s[n + 1..];
  }

  lemma DspTcp(subnet: int, e: Afi, idi: string, y: string)
    requires AllDigits(idi)
    ensures ParseDsp(subnet, e, idi, RFC1006 + y) == ParseTcp(subnet, y)
  {
    var dsp := RFC1006 + y;
    assert dsp[0] == RFC1006[0] && |RFC1006| == 9;
    assert dsp[..9] == RFC1006 && dsp[9..] == y;
  }

  lemma DspX25(subnet: int, e: Afi, idi: string, y: string)
    requires AllDigits(idi)
    ensures ParseDsp(subnet, e, idi, X25_80 + y) == ParseX25(subnet, y)
  {
    var dsp := X25_80 + y;
    assert dsp[0] == X25_80[0] && |X25_80| == 9;
    assert dsp[..9] == X25_80 && dsp[9..] == y;
    assert RFC1006[0] != X25_80[0] && dsp[..9][0] == dsp[0];
  }

  lemma Assoc(a: string, b: string, c: string)
    ensures a + b + c == a + (b + c)
  {
  }

  lemma BodyOf(subnet: int, text: string)
    requires !Same(Before(text, '+'), "NS") && Named(AFIS, Before(text, '+')).Some?
    ensures ParseBody(subnet, text) == ParseDsp(subnet, Named(AFIS, Before(text, '+')).value,
              Before(After(text, '+'), '+'), After(After(text, '+'), '+'))
  {
  }

  /** The fields the parser finds in a value with text behind it. */
  lemma ValueFields(subnet: int, v: string, t: string)
    requires v != [] && !Same(Before(v, '+'), "NS") && Named(AFIS, Before(v, '+')).Some?
    ensures Has(LeadText(v) + t, '+')
    ensures var e, r1 := Named(AFIS, Before(v, '+')).value, After(v, '+');
            ParseBody(subnet, LeadText(v) + t)
            == if r1 == [] then ParseDsp(subnet, e, Before(t, '+'), After(t, '+'))
               else ParseDsp(subnet, e, Before(r1, '+'), Tail(After(r1, '+')) + t)
  {
    hide *;
    TailCut(v, t);
    BodyOf(subnet, LeadText(v) + t);
    var r1 := After(v, '+');
    TailOf(r1);
    if r1 == [] {
      assert [] + t == t;
    } else {
      TailCut(r1, t);
    }
  }

  lemma TailOf(r: string)
    ensures Tail(r) == if r == [] then [] else LeadText(r)
  {
  }

  /** Behind a tag there is what is left of the value, and the text. */
  lemma TagFields(r2: string, t: string)
    requires r2 != []
    ensures LeadText(r2) + t == Before(r2, '+') + ['+'] + (Tail(After(r2, '+')) + t)
  {
    hide *;
    TailCut(r2, t);
    Rejoin(LeadText(r2) + t);
  }

  /** Text behind a shaped value reaches the parser of that syntax. */
  lemma ShapedDsp(subnet: int, v: string, tag: string, t: string) returns (x: string)
    requires Shaped(v, tag) && (tag == RFC1006 || tag == X25_80)
    ensures '+' !in x && Has(LeadText(v) + t, '+')
    ensures ParseBody(subnet, LeadText(v) + t)
         == if tag == RFC1006 then ParseTcp(subnet, x + ['+'] + t) else ParseX25(subnet, x + ['+'] + t)
  {
    var r1 := After(v, '+');
    var r2 := After(r1, '+');
    var r3 := After(r2, '+');
    x := Before(r3, '+');
    assert v != [] && r1 != [] && r2 != [];
    var e := Named(AFIS, Before(v, '+')).value;
    assert Before(r2, '+') + ['+'] == tag && AllDigits(Before(r1, '+'));
    TailOf(r2);
    TailOf(r3);
    ValueFields(subnet, v, t);
    hide *;
    LastField(r3);
    TagFields(r2, t);
    var y := x + ['+'] + t;
    DspTcp(subnet, e, Before(r1, '+'), y);
    DspX25(subnet, e, Before(r1, '+'), y);
  }

  // ---------------------------------------------------------------- TCP addresses

  predicate Plusless(s: string) {
    '+' !in s && '|' !in s && '=' !in s
  }

  lemma DigitsPlusless(s: string)
    requires AllDigits(s)
    ensures Plusless(s)
  {
  }

  lemma HexPlusless(s: string)
    requires LowerHex(s)
    ensures Plusless(s)
  {
  }

  lemma DecPlusless(n: nat)
    ensures Plusless(Dec(n))
  {
    DecDigits(n);
    DigitsPlusless(Dec(n));
  }

  lemma DottedPlusless(q: Quad)
    ensures Plusless(Dotted(q)) && Dotted(q) != []
  {
    DecPlusless(q[0]);
    DecPlusless(q[1]);
    DecPlusless(q[2]);
    DecPlusless(q[3]);
  }

  lemma {:induction false} LeadingAll(s: string)
    requires AllDigits(s)
    ensures LeadingDigits(s) == s
  {
    if s != [] {
      LeadingAll(s[1..]);
    }
  }

  lemma U16Dec(n: nat)
    requires n < 65536
    ensures U16(Dec(n)) == Some(n)
  {
    DecDigits(n);
    LeadingAll(Dec(n));
    ValDec(n);
  }

  /** The TCP form gives back everything but a transport set without a port. */
  lemma TcpBack(subnet: int, x: string, q: Quad, port: nat, tset: nat)
    requires '+' !in x && port < 65536 && tset < 65536
    ensures ParseTcp(subnet, x + ['+'] + (Dotted(q) + PortText(port, tset)))
         == Some(TcpAddr(subnet, Dotted(q), port, if port == 0 then 0 else tset))
  {
    hide Dotted, LiteralHost, Dec, Val, U16, Before, After, Has;
    var t := Dotted(q) + PortText(port, tset);
    CutAt(x, '+', t);
    LiteralDotted(q);
    DottedPlusless(q);
    DecPlusless(port);
    DecPlusless(tset);
    U16Dec(port);
    U16Dec(tset);
    if port == 0 {
      assert t == Dotted(q);
      CutNone(t, '+');
    } else if tset == 0 {
      PlusRest(Dotted(q), Dec(port), "");
      CutAt(Dotted(q), '+', Dec(port));
      CutNone(Dec(port), '+');
    } else {
      PlusRest(Dotted(q), Dec(port), "+" + Dec(tset));
      var more := Dec(port) + ("+" + Dec(tset));
      CutAt(Dotted(q), '+', more);
      assert more == Dec(port) + ['+'] + Dec(tset);
      CutAt(Dec(port), '+', Dec(tset));
    }
  }

  lemma PlusRest(a: string, b: string, c: string)
    ensures a + ("+" + b + c) == a + ['+'] + (b + c) && b + "" == b
  {
  }

  // ---------------------------------------------------------------- X.25 addresses

  /** The X.25 form gives back everything but a call user data field behind a PID. */
  lemma X25Back(subnet: int, x: string, dte: string, pid: seq<Octet>, cudf: seq<Octet>)
    requires '+' !in x && AllDigits(dte) && |dte| <= NSAP_DTELEN && |pid| <= NPSIZE && |cudf| <= CUDFSIZE
    ensures ParseX25(subnet, x + ['+'] + (dte + FieldText(pid, cudf)))
         == Some(X25Addr(subnet, dte, pid, if pid == [] then cudf else []))
  {
    hide AllDigits, Explode, Implode, Before, After, Has, Same;
    var t := dte + FieldText(pid, cudf);
    CutAt(x, '+', t);
    DigitsPlusless(dte);
    if pid == [] && cudf == [] {
      assert t == dte;
      CutNone(t, '+');
    } else {
      var field, b := if pid != [] then "PID" else "CUDF", if pid != [] then pid else cudf;
      ImplodeExplode(b);
      FieldCut(dte, field, Explode(b));
      FieldNames();
    }
  }

  lemma FieldCut(dte: string, field: string, hex: string)
    requires '+' !in dte && '+' !in field
    ensures var t := dte + ("+" + field + "+" + hex);
            && Has(t, '+') && Before(t, '+') == dte && After(t, '+') == field + ['+'] + hex
            && Has(After(t, '+'), '+') && Before(After(t, '+'), '+') == field && After(After(t, '+'), '+') == hex
    ensures field + ['+'] + hex != []
  {
    hide *;
    var more := field + ['+'] + hex;
    Assoc("+" + field, "+", hex);
    Assoc("+", field, "+" + hex);
    Assoc(field, "+", hex);
    Assoc(dte, "+", more);
    CutAt(dte, '+', more);
    CutAt(field, '+', hex);
  }

  lemma FieldNames()
    ensures Same("PID", "PID") && Same("CUDF", "CUDF") && !Same("PID", "CUDF")
    ensures '+' !in "PID" && '+' !in "CUDF"
    ensures "+PID+" == "+" + "PID" + "+" && "+CUDF+" == "+" + "CUDF" + "+"
  {
  }

  lemma OnlyX121(e: Afi)
    requires e in AFIS
    ensures Same(e.name, "X121") <==> e == X121
  {
    if Same(e.name, "X121") {
      assert Fold(e.name[0]) == 'X';
    }
  }

  lemma BareBack(subnet: int, dte: string)
    requires AllDigits(dte) && |dte| <= NSAP_DTELEN
    ensures ParseBody(subnet, "X121+" + dte) == Some(X25Addr(SUBNET_INT_X25, dte, [], []))
  {
    hide Named, AllDigits, Before, After, Has;
    assert "X121+" + dte == "X121" + ['+'] + dte;
    CutAt("X121", '+', dte);
    DigitsPlusless(dte);
    CutNone(dte, '+');
    TableNamed(X121);
    OnlyX121(X121);
    assert !Same("X121", "NS");
  }

  // ---------------------------------------------------------------- NSAP addresses

  lemma NsBack(subnet: int, b: seq<Octet>)
    requires |b| <= NASIZE
    ensures ParseBody(subnet, "NS+" + Explode(b)) == Some(NsapAddr(subnet, b))
  {
    NsName();
    hide *;
    BodyNs(subnet, "NS", Explode(b));
    ImplodeExplode(b);
  }

  lemma NsName()
    ensures "NS+" == "NS" + ['+'] && '+' !in "NS" && Same("NS", "NS")
  {
  }

  lemma BodyNs(subnet: int, name: string, hex: string)
    requires Same(name, "NS") && '+' !in name
    ensures var b := Fitting(Implode(hex));
            ParseBody(subnet, name + ['+'] + hex) == if b.None? then None else Some(NsapAddr(subnet, b.value))
    ensures Implode(hex).Some? && |Implode(hex).value| <= NASIZE ==> Fitting(Implode(hex)) == Implode(hex)
  {
    hide Implode;
    CutAt(name, '+', hex);
  }

  lemma NsIsNoAfi(hex: string)
    ensures !StartsAfi(AFIS, "NS+" + hex)
  {
    var text := "NS+" + hex;
    forall i | 0 <= i < |AFIS|
      ensures !LooksLike(AFIS[i].name, text)
    {
      TablePlain(AFIS[i]);
      var name := AFIS[i].name;
      assert AFIS[i] in [X121, DCC, TELEX, PSTN, ISDN, ICD, LOCAL];
      assert name[0] != 'N' && name[..|name| - 1][0] == name[0];
      assert |text| > |name| ==> text[..|name| - 1][0] == 'N';
    }
  }

  lemma AfiStarts(e: Afi, rest: string)
    requires e in AFIS
    ensures StartsAfi(AFIS, e.name + "+" + rest) && Has(e.name + "+" + rest, '+')
  {
    var k :| 0 <= k < |AFIS| && AFIS[k] == e;
    TablePlain(e);
    hide AFIS;
    var text := e.name + "+" + rest;
    assert text[..|e.name| - 1] == e.name[..|e.name| - 1];
    assert LooksLike(AFIS[k].name, text);
    CutAt(e.name, '+', rest);
    assert text == e.name + ['+'] + rest;
  }

  /** Cutting the AFI+IDI+DSP form. */
  lemma FormCut(subnet: int, e: Afi, idi: string, mark: Mark, d: string)
    requires e in AFIS && '+' !in idi
    ensures ParseBody(subnet, FormOf(e.name, idi, mark, d))
         == ParseDsp(subnet, e, idi, Marked(mark, d))
  {
    TablePlain(e);
    TableNamed(e);
    NotNs(e.name);
    FormParts(e.name, idi, mark, d);
    var m := Marked(mark, d);
    hide *;
    CutAt(e.name, '+', if d == [] then idi else idi + ['+'] + m);
    if d == [] {
      CutNone(idi, '+');
    } else {
      CutAt(idi, '+', m);
    }
    BodyOf(subnet, FormOf(e.name, idi, mark, d));
  }

  lemma FormParts(name: string, idi: string, mark: Mark, d: string)
    ensures FormOf(name, idi, mark, d)
         == name + ['+'] + (if d == [] then idi else idi + ['+'] + Marked(mark, d))
    ensures d == [] ==> Marked(mark, d) == []
    ensures Plain(name) ==> '+' !in name && |name| >= 3
  {
    if d == [] {
      assert name + "+" + idi + "" == name + ['+'] + idi;
    } else {
      assert name + "+" + idi + ("+" + [MarkChar(mark)] + d) == name + ['+'] + (idi + ['+'] + ([MarkChar(mark)] + d));
    }
  }

  lemma NotNs(name: string)
    requires |name| >= 3
    ensures !Same(name, "NS")
  {
  }

  lemma DspForm(subnet: int, e: Afi, idi: string, mark: Mark, d: string)
    requires e in AFIS
    ensures ParseDsp(subnet, e, idi, Marked(mark, d))
         == if IsX121(e) && d == [] && AllDigits(idi) then
              (if |idi| > NSAP_DTELEN then None else Some(X25Addr(SUBNET_INT_X25, idi, [], [])))
            else var b := ParseForm(e, idi, Marked(mark, d));
              if b.None? then None else Some(NsapAddr(subnet, b.value))
  {
    hide ParseDec, ParseHex, ParseIa5;
    OnlyX121(e);
    hide AFIS;
  }

  // ---------------------------------------------------------------- values that carry no addresses

  /** What macro2comm lets through, field by field. */
  lemma MadeFields(v: string)
    requires Macro2Comm(v).Some? && !Same(Before(v, '+'), "NS")
    ensures Named(AFIS, Before(v, '+')).Some?
    ensures var r1 := After(v, '+');
            var r2 := After(r1, '+');
            AllDigits(Before(r1, '+'))
            && (Direct(r2) || (TagSyntax(Before(r2, '+')).Some? && After(After(r2, '+'), '+') == []))
  {
    hide ParseForm, ParseDec, Named, Same, AllDigits, TagSyntax;
  }

  lemma NsBody(subnet: int, v: string, t: string)
    requires v != [] && Same(Before(v, '+'), "NS")
    ensures Has(LeadText(v) + t, '+')
    ensures var b := ParseBody(subnet, LeadText(v) + t); b.None? || b.value.NsapAddr?
  {
    TailCut(v, t);
    hide Before, After, Has, LeadText, Implode, Same, Tail;
  }

  /** A DSP that starts like an address is none. */
  lemma DspOther(subnet: int, e: Afi, idi: string, dsp: string)
    requires dsp != [] && (IsDigit(dsp[0]) || dsp[0] == '+' || dsp[0] == 'P' || dsp[0] == 'C')
    ensures ParseDsp(subnet, e, idi, dsp).None?
  {
    hide AllDigits, Same;
    assert |RFC1006| > 0 && RFC1006[0] == 'R' && |X25_80| > 0 && X25_80[0] == 'X';
  }

  lemma DspDirect(subnet: int, e: Afi, idi: string, dsp: string)
    requires Direct(dsp) && !(Same(e.name, "X121") && dsp == [])
    ensures var b := ParseDsp(subnet, e, idi, dsp); b.None? || b.value.NsapAddr?
  {
    hide ParseForm, Same, AllDigits;
  }

  lemma TagLength(tag: string)
    requires TagSyntax(tag).Some?
    ensures |tag| == 8
  {
  }

  /** Behind a tag only the exact spelling leads on. */
  lemma TagDsp(subnet: int, e: Afi, idi: string, tag: string, y: string)
    requires AllDigits(idi) && |tag| == 8 && !Direct(tag)
    ensures ParseDsp(subnet, e, idi, tag + ['+'] + y)
         == if tag + ['+'] == RFC1006 then ParseTcp(subnet, y)
            else if tag + ['+'] == X25_80 then ParseX25(subnet, y) else None
  {
    hide ParseTcp, ParseX25, AllDigits, Same;
    var dsp := tag + ['+'] + y;
    assert dsp[0] == tag[0] && |RFC1006| == 9 && |X25_80| == 9;
    assert dsp[..9] == tag + ['+'] && dsp[9..] == y;
  }

  lemma TcpAlone(subnet: int, q: Quad, port: nat, tset: nat)
    ensures ParseTcp(subnet, Dotted(q) + PortText(port, tset)).None?
  {
    hide Dotted, LiteralHost, Dec, Before, After, Has;
    DottedPlusless(q);
    DecPlusless(port);
    if port == 0 {
      assert Dotted(q) + "" == Dotted(q);
      CutNone(Dotted(q), '+');
    } else {
      var more := if tset == 0 then "" else "+" + Dec(tset);
      PlusRest(Dotted(q), Dec(port), more);
      CutAt(Dotted(q), '+', Dec(port) + more);
      NoHost(port);
      if tset == 0 {
        assert Dec(port) + "" == Dec(port);
        CutNone(Dec(port), '+');
      } else {
        assert Dec(port) + ("+" + Dec(tset)) == Dec(port) + ['+'] + Dec(tset);
        CutAt(Dec(port), '+', Dec(tset));
      }
    }
  }

  lemma NoHost(n: nat)
    ensures LiteralHost(Dec(n)).None?
  {
    DecDigits(n);
    hide Dec;
    CutNone(Dec(n), '.');
  }

  lemma X25Alone(subnet: int, dte: string, pid: seq<Octet>, cudf: seq<Octet>)
    requires AllDigits(dte)
    ensures ParseX25(subnet, dte + FieldText(pid, cudf)).None?
  {
    DigitsPlusless(dte);
    hide AllDigits, Explode, Before, After, Has, ParseField;
    if pid == [] && cudf == [] {
      assert dte + "" == dte;
      CutNone(dte, '+');
    } else {
      var field, b := if pid != [] then "PID" else "CUDF", if pid != [] then pid else cudf;
      FieldNames();
      FieldCut(dte, field, Explode(b));
      LettersNoDigits();
    }
  }

  lemma LettersNoDigits()
    ensures !AllDigits("PID") && !AllDigits("CUDF")
  {
    assert !IsDigit("PID"[0]) && !IsDigit("CUDF"[0]);
  }

  lemma DottedStart(q: Quad, port: nat, tset: nat)
    ensures var t := Dotted(q) + PortText(port, tset);
            t != [] && IsDigit(t[0]) && !AllDigits(Before(t, '+'))
  {
    hide Before, PortText;
    DecDigits(q[0]);
    var d := Dotted(q);
    assert d[0] == Dec(q[0])[0];
    assert d[|Dec(q[0])|] == '.';
    BeforePort(q, port, tset);
  }

  lemma BeforePort(q: Quad, port: nat, tset: nat)
    ensures Before(Dotted(q) + PortText(port, tset), '+') == Dotted(q)
  {
    hide Dotted, Dec, Before, Has, After;
    DottedPlusless(q);
    if port == 0 {
      assert Dotted(q) + "" == Dotted(q);
      CutNone(Dotted(q), '+');
    } else {
      var more := if tset == 0 then "" else "+" + Dec(tset);
      PlusRest(Dotted(q), Dec(port), more);
      CutAt(Dotted(q), '+', Dec(port) + more);
    }
  }

  /** Behind any other value that macro2comm takes, no TCP address comes out. */
  lemma TcpUnshaped(subnet: int, v: string, q: Quad, port: nat, tset: nat)
    requires v != [] && Macro2Comm(v).Some? && !Shaped(v, RFC1006)
    ensures var text := LeadText(v) + (Dotted(q) + PortText(port, tset));
            Has(text, '+') && (ParseBody(subnet, text).None? || !ParseBody(subnet, text).value.TcpAddr?)
  {
    var t := Dotted(q) + PortText(port, tset);
    DottedStart(q, port, tset);
    if Same(Before(v, '+'), "NS") {
      hide *;
      NsBody(subnet, v, t);
    } else {
      MadeFields(v);
      UnshapedFields(v, RFC1006);
      var e, r1 := Named(AFIS, Before(v, '+')).value, After(v, '+');
      var r2 := After(r1, '+');
      TailOf(r2);
      DspNoDigits(subnet, e, Before(t, '+'), After(t, '+'));
      hide *;
      ValueFields(subnet, v, t);
      if r1 != [] {
        if r2 == [] {
          assert [] + t == t;
          DspOther(subnet, e, Before(r1, '+'), t);
        } else {
          TcpBehindTag(subnet, e, Before(r1, '+'), r2, q, port, tset);
        }
      }
    }
  }

  lemma DspNoDigits(subnet: int, e: Afi, idi: string, dsp: string)
    requires !AllDigits(idi)
    ensures ParseDsp(subnet, e, idi, dsp).None?
  {
  }

  /** Why a value is not shaped, given all its fields are read. */
  lemma UnshapedFields(v: string, tag: string)
    requires Named(AFIS, Before(v, '+')).Some? && !Same(Before(v, '+'), "NS") && AllDigits(Before(After(v, '+'), '+'))
    requires !Shaped(v, tag)
    ensures var r2 := After(After(v, '+'), '+');
            Before(r2, '+') + ['+'] != tag || After(r2, '+') == [] || After(After(r2, '+'), '+') != []
  {
    hide Before, After, Named, AFIS, AllDigits, Same;
  }

  predicate Unfit(r2: string, tag: string) {
    (Direct(r2) || (TagSyntax(Before(r2, '+')).Some? && After(After(r2, '+'), '+') == []))
    && (Before(r2, '+') + ['+'] != tag || After(r2, '+') == [] || After(After(r2, '+'), '+') != [])
  }

  lemma TcpBehindTag(subnet: int, e: Afi, idi: string, r2: string, q: Quad, port: nat, tset: nat)
    requires r2 != [] && AllDigits(idi) && Unfit(r2, RFC1006)
    ensures var b := ParseDsp(subnet, e, idi, LeadText(r2) + (Dotted(q) + PortText(port, tset)));
            b.None? || !b.value.TcpAddr?
  {
    var t := Dotted(q) + PortText(port, tset);
    var tag, r3 := Before(r2, '+'), After(r2, '+');
    LeadDirect(r2, t);
    TagHead(r2);
    TailOf(r3);
    var direct := Direct(r2);
    assert direct || (TagSyntax(tag).Some? && After(r3, '+') == []);
    assert tag + ['+'] != RFC1006 || r3 == [] || After(r3, '+') != [];
    hide *;
    if direct {
      DspDirect(subnet, e, idi, LeadText(r2) + t);
    } else {
      TagLength(tag);
      TagFields(r2, t);
      TagDsp(subnet, e, idi, tag, Tail(r3) + t);
      TcpAlone(subnet, q, port, tset);
      X25IsX25(subnet, Tail(r3) + t);
      assert [] + t == t;
    }
  }

  lemma X25IsX25(subnet: int, y: string)
    ensures ParseX25(subnet, y).Some? ==> ParseX25(subnet, y).value.X25Addr?
  {
  }

  lemma TcpIsTcp(subnet: int, y: string)
    ensures ParseTcp(subnet, y).Some? ==> ParseTcp(subnet, y).value.TcpAddr?
  {
  }

  lemma LeadDirect(r2: string, t: string)
    requires r2 != []
    ensures LeadText(r2) + t != [] && (Direct(LeadText(r2) + t) <==> Direct(r2))
  {
  }

  lemma TagHead(r2: string)
    requires r2 != []
    ensures Before(r2, '+') != [] ==> Before(r2, '+')[0] == r2[0] && (Direct(Before(r2, '+')) <==> Direct(r2))
  {
  }

  /** Behind any other value that macro2comm takes an ordinary X.25 address comes out only as
      international digits, and only when the value is X121 alone. */
  lemma X25Unshaped(subnet: int, v: string, a: NetAddr)
    requires v != [] && Macro2Comm(v).Some? && !Shaped(v, X25_80)
    requires a.X25Addr? && !X121Form(a) && AllDigits(a.dte) && |a.dte| <= NSAP_DTELEN
    ensures var text := LeadText(v) + (a.dte + FieldText(a.pid, a.cudf));
            var b := ParseBody(subnet, text);
            Has(text, '+') && (b.Some? && b.value.X25Addr? ==> b.value.community == SUBNET_INT_X25)
            && (b == Some(a) <==> JustDigits(v, a))
  {
    var t := a.dte + FieldText(a.pid, a.cudf);
    if Same(Before(v, '+'), "NS") {
      NsNotX121(v, a);
      hide *;
      NsBody(subnet, v, t);
    } else {
      MadeFields(v);
      UnshapedFields(v, X25_80);
      var e, r1 := Named(AFIS, Before(v, '+')).value, After(v, '+');
      var r2 := After(r1, '+');
      TailOf(r2);
      JustNamed(v, a);
      var bare := a.pid == [] && a.cudf == [];
      BareForm(a);
      hide *;
      ValueFields(subnet, v, t);
      if r1 == [] {
        DigitsBehindName(subnet, e, a);
      } else if r2 == [] {
        assert [] + t == t;
        DigitsBehindIdi(subnet, e, Before(r1, '+'), a);
      } else {
        X25BehindTag(subnet, e, Before(r1, '+'), r2, a);
      }
    }
  }

  lemma BareForm(a: NetAddr)
    requires a.X25Addr? && !X121Form(a)
    ensures a.dte == [] && a.pid == [] && a.cudf == [] ==> a.community != SUBNET_INT_X25
  {
  }

  lemma NsNotX121(v: string, a: NetAddr)
    requires a.X25Addr? && Same(Before(v, '+'), "NS")
    ensures !JustDigits(v, a)
  {
  }

  lemma JustNamed(v: string, a: NetAddr)
    requires a.X25Addr? && Named(AFIS, Before(v, '+')).Some?
    ensures JustDigits(v, a) <==> After(v, '+') == [] && Same(Named(AFIS, Before(v, '+')).value.name, "X121")
                                  && a.community == SUBNET_INT_X25 && a.pid == [] && a.cudf == []
  {
    hide AFIS;
  }

  lemma FieldStart(pid: seq<Octet>, cudf: seq<Octet>, dte: string)
    requires AllDigits(dte)
    ensures var t := dte + FieldText(pid, cudf);
            Before(t, '+') == dte && After(t, '+') == (if pid != [] then "PID+" + Explode(pid)
                                                       else if cudf != [] then "CUDF+" + Explode(cudf) else [])
  {
    DigitsPlusless(dte);
    FieldNames();
    hide AllDigits, Explode, Before, After, Has, IndexOf, Same;
    if pid == [] && cudf == [] {
      assert dte + "" == dte;
      CutNone(dte, '+');
    } else {
      var field, b := if pid != [] then "PID" else "CUDF", if pid != [] then pid else cudf;
      FieldCut(dte, field, Explode(b));
      NamedField(pid, cudf, field, Explode(b));
    }
  }

  lemma NamedField(pid: seq<Octet>, cudf: seq<Octet>, field: string, hex: string)
    requires pid != [] || cudf != []
    requires field == (if pid != [] then "PID" else "CUDF") && hex == Explode(if pid != [] then pid else cudf)
    ensures FieldText(pid, cudf) == "+" + field + "+" + hex
    ensures field + ['+'] + hex == if pid != [] then "PID+" + hex else "CUDF+" + hex
  {
    hide Explode;
    assert "PID" + ['+'] == "PID+" && "CUDF" + ['+'] == "CUDF+";
    assert "+" + "PID" + "+" == "+PID+" && "+" + "CUDF" + "+" == "+CUDF+";
  }

  lemma DigitsBehindName(subnet: int, e: Afi, a: NetAddr)
    requires a.X25Addr? && AllDigits(a.dte) && |a.dte| <= NSAP_DTELEN
    ensures var t := a.dte + FieldText(a.pid, a.cudf);
            ParseDsp(subnet, e, Before(t, '+'), After(t, '+'))
            == if a.pid != [] || a.cudf != [] then None
               else if Same(e.name, "X121") then Some(X25Addr(SUBNET_INT_X25, a.dte, [], []))
               else var b := ParseForm(e, a.dte, []); if b.None? then None else Some(NsapAddr(subnet, b.value))
  {
    FieldStart(a.pid, a.cudf, a.dte);
    var t := a.dte + FieldText(a.pid, a.cudf);
    hide Explode, Before, ParseForm, Same, AllDigits;
    if a.pid != [] || a.cudf != [] {
      DspOther(subnet, e, Before(t, '+'), After(t, '+'));
    }
  }

  lemma DigitsBehindIdi(subnet: int, e: Afi, idi: string, a: NetAddr)
    requires a.X25Addr? && AllDigits(a.dte)
    ensures var b := ParseDsp(subnet, e, idi, a.dte + FieldText(a.pid, a.cudf));
            b.Some? && b.value.X25Addr?
            ==> b.value.community == SUBNET_INT_X25 && a.dte == [] && a.pid == [] && a.cudf == []
  {
    var t := a.dte + FieldText(a.pid, a.cudf);
    hide Explode, ParseForm, Same, ParseTcp, ParseX25;
    if t != [] {
      assert a.dte != [] ==> t[0] == a.dte[0];
      DspOther(subnet, e, idi, t);
    }
  }

  lemma X25BehindTag(subnet: int, e: Afi, idi: string, r2: string, a: NetAddr)
    requires r2 != [] && AllDigits(idi) && Unfit(r2, X25_80) && a.X25Addr? && AllDigits(a.dte)
    ensures var b := ParseDsp(subnet, e, idi, LeadText(r2) + (a.dte + FieldText(a.pid, a.cudf)));
            b.None? || !b.value.X25Addr?
  {
    var t := a.dte + FieldText(a.pid, a.cudf);
    var tag, r3 := Before(r2, '+'), After(r2, '+');
    LeadDirect(r2, t);
    TagHead(r2);
    TailOf(r3);
    var direct := Direct(r2);
    assert direct || (TagSyntax(tag).Some? && After(r3, '+') == []);
    assert tag + ['+'] != X25_80 || r3 == [] || After(r3, '+') != [];
    hide *;
    if direct {
      DspDirect(subnet, e, idi, LeadText(r2) + t);
    } else {
      TagLength(tag);
      TagFields(r2, t);
      TagDsp(subnet, e, idi, tag, Tail(r3) + t);
      X25Alone(subnet, a.dte, a.pid, a.cudf);
      TcpIsTcp(subnet, Tail(r3) + t);
      assert [] + t == t;
    }
  }

  // ---------------------------------------------------------------- the round trip

  /** The value of the address's own community starts the text. */
  lemma OwnStarts(table: seq<Community>, c: Community, t: string)
    requires c in table && c.value.Some? && c.value.value != []
    ensures ByText(table, LeadText(c.value.value) + t).Some?
  {
    var text := LeadText(c.value.value) + t;
    assert text[..|c.value.value|] == c.value.value;
    assert ValueFits(c, text);
  }

  lemma TcpRoundTrip(table: seq<Community>, a: NetAddr)
    requires a.TcpAddr? && Sound(table, a)
    ensures ParseNet(table, NetText(table, a).value) == Some(a) <==> Readable(table, a, NetText(table, a).value)
  {
    var q: Quad :| a.domain == Dotted(q);
    var own := Own(table, a.community).value;
    var v := own.value.value;
    var t := a.domain + PortText(a.port, a.tset);
    TcpText(table, a);
    var text := NetText(table, a).value;
    var n := TextSubnet(table, text);
    assert v == OwnValue(table, a) && v != [] && Macro2Comm(v).Some? && a.port < 65536 && a.tset < 65536;
    OwnStarts(table, own, t);
    TcpReadable(table, a, text);
    hide *;
    if Shaped(v, RFC1006) {
      var x := ShapedDsp(n, v, RFC1006, t);
      TcpBack(n, x, q, a.port, a.tset);
      GateOpen(table, text);
    } else {
      TcpUnshaped(n, v, q, a.port, a.tset);
      GateOpen(table, text);
      SettleKind(table, ParseBody(n, text));
    }
  }

  lemma SettleKind(table: seq<Community>, b: Option<NetAddr>)
    ensures b.Some? ==> StackOf(Settle(table, b.value)) == StackOf(b.value)
                        && (!b.value.NsapAddr? ==> Settle(table, b.value) == b.value)
  {
  }

  lemma TcpReadable(table: seq<Community>, a: NetAddr, text: string)
    requires a.TcpAddr?
    ensures var b := TcpAddr(TextSubnet(table, text), a.domain, a.port, if a.port == 0 then 0 else a.tset);
            Settle(table, b) == b
            && (Readable(table, a, text) <==> Shaped(OwnValue(table, a), RFC1006) && b == a)
  {
    hide Shaped, OwnValue;
  }

  lemma X25Readable(table: seq<Community>, a: NetAddr, text: string)
    requires a.X25Addr? && !X121Form(a)
    ensures var b := X25Addr(TextSubnet(table, text), a.dte, a.pid, if a.pid == [] then a.cudf else []);
            Settle(table, b) == b
            && (Readable(table, a, text) <==> (Shaped(OwnValue(table, a), X25_80) && b == a)
                                              || JustDigits(OwnValue(table, a), a))
  {
    hide Shaped, OwnValue, JustX121;
  }

  lemma TcpText(table: seq<Community>, a: NetAddr)
    requires a.TcpAddr? && Sound(table, a)
    ensures NetText(table, a) == Some(LeadText(Own(table, a.community).value.value.value)
                                      + (a.domain + PortText(a.port, a.tset)))
  {
    hide PortText;
    Assoc(LeadText(Own(table, a.community).value.value.value), a.domain, PortText(a.port, a.tset));
  }

  lemma GateOpen(table: seq<Community>, text: string)
    requires ByText(table, text).Some? && Has(text, '+')
    ensures Gate(table, text)
    ensures var a := ParseBody(TextSubnet(table, text), text);
            ParseNet(table, text) == if a.None? then None else Some(Settle(table, a.value))
  {
  }

  lemma X25RoundTrip(table: seq<Community>, a: NetAddr)
    requires a.X25Addr? && Sound(table, a)
    ensures ParseNet(table, NetText(table, a).value) == Some(a) <==> Readable(table, a, NetText(table, a).value)
  {
    var own := Own(table, a.community).value;
    var lead := LeadText(own.value.value);
    if X121Form(a) {
      var text := "X121+" + a.dte;
      assert NetText(table, a) == Some(text);
      BareBack(TextSubnet(table, text), a.dte);
      X121Gate(table, a.dte);
    } else {
      var t := a.dte + FieldText(a.pid, a.cudf);
      X25Text(table, a);
      var text := NetText(table, a).value;
      var n := TextSubnet(table, text);
      var v := own.value.value;
      assert v == OwnValue(table, a) && v != [] && Macro2Comm(v).Some?;
      OwnStarts(table, own, t);
      X25Readable(table, a, text);
      X25Bounds(table, a);
      NotJustX121(v, a);
      hide *;
      if Shaped(v, X25_80) {
        var x := ShapedDsp(n, v, X25_80, t);
        X25Back(n, x, a.dte, a.pid, a.cudf);
        GateOpen(table, text);
      } else {
        X25Unshaped(n, v, a);
        GateOpen(table, text);
        SettleKind(table, ParseBody(n, text));
      }
    }
  }

  /** A shaped value is not X121 alone. */
  lemma NotJustX121(v: string, a: NetAddr)
    requires a.X25Addr?
    ensures Shaped(v, X25_80) ==> !JustDigits(v, a)
  {
    CutNone("", '+');
  }

  lemma X25Bounds(table: seq<Community>, a: NetAddr)
    requires a.X25Addr? && Sound(table, a)
    ensures AllDigits(a.dte) && |a.dte| <= NSAP_DTELEN && |a.pid| <= NPSIZE && |a.cudf| <= CUDFSIZE
  {
  }

  lemma X25Text(table: seq<Community>, a: NetAddr)
    requires a.X25Addr? && Sound(table, a) && !X121Form(a)
    ensures NetText(table, a) == Some(LeadText(Own(table, a.community).value.value.value)
                                      + (a.dte + FieldText(a.pid, a.cudf)))
  {
    hide FieldText;
    Assoc(LeadText(Own(table, a.community).value.value.value), a.dte, FieldText(a.pid, a.cudf));
  }

  lemma X121Gate(table: seq<Community>, dte: string)
    ensures Gate(table, "X121+" + dte)
  {
    AfiStarts(X121, dte);
    assert "X121" + "+" == "X121+";
  }

  /** The AFI, IDI and DSP of an address, and its printed form. */
  lemma FormPieces(b: seq<Octet>, r: Reading) returns (idi: string, dsp: string)
    requires ReadOctets(b) == Some(r) && 2 * |b| >= 2 + r.entry.idiLen
    ensures var code := Explode(b)[..2];
            && Explode(b) == code + idi + dsp && |idi| == r.entry.idiLen && r.entry in AFIS
            && ReadEntry(r.entry, code) == Some(r)
            && idi == Explode(b)[2..2 + r.entry.idiLen] && dsp == Explode(b)[2 + r.entry.idiLen..]
    ensures var d := DspText(r.mark, 2 + |idi|, dsp);
            PrintNsap(b) == Some(FormOf(r.entry.name, Strip(r.pad, idi), r.mark, d))
  {
    hide Explode, DspText, Strip, AFIS, FormOf;
    var h := Explode(b);
    idi := h[2..2 + r.entry.idiLen];
    dsp := h[2 + r.entry.idiLen..];
    assert h == h[..2] + idi + dsp;
  }

  lemma IdiPlusless(b: seq<Octet>, code: string, idi: string, dsp: string, pad: Option<char>)
    requires Explode(b) == code + idi + dsp
    ensures Plusless(Strip(pad, idi))
  {
    hide Explode;
    ExplodeLower(b);
    var h := Explode(b);
    assert LowerHex(idi) by {
      forall i | 0 <= i < |idi|
        ensures '0' <= idi[i] <= '9' || 'a' <= idi[i] <= 'f'
      {
        assert idi[i] == h[|code| + i];
      }
    }
    StripHex(pad, idi);
    HexPlusless(Strip(pad, idi));
  }

  lemma {:induction false} StripHex(pad: Option<char>, s: string)
    requires LowerHex(s)
    ensures LowerHex(Strip(pad, s))
  {
    if s != [] && pad == Some(s[0]) {
      StripHex(pad, s[1..]);
    }
  }

  /** What the parser makes of the AFI+IDI+DSP form. */
  lemma FormParsed(table: seq<Community>, e: Afi, idi: string, mark: Mark, d: string, a: NetAddr)
    requires e in AFIS && '+' !in idi && a.NsapAddr?
    ensures var text := FormOf(e.name, idi, mark, d);
            ParseNet(table, text) == Some(a)
            <==> !(IsX121(e) && d == [] && AllDigits(idi)) && ParseForm(e, idi, Marked(mark, d)) == Some(a.address)
                 && a.community == NsapSubnet(table, text, a.address)
  {
    hide *;
    var text := FormOf(e.name, idi, mark, d);
    FormCut(TextSubnet(table, text), e, idi, mark, d);
    DspForm(TextSubnet(table, text), e, idi, mark, d);
    FormGate(table, e, idi, mark, d);
    var p := ParseForm(e, idi, Marked(mark, d));
    SettleNsap(table, text, if p.Some? then p.value else [], idi);
  }

  lemma FormVerdict(table: seq<Community>, a: NetAddr, r: Reading, code: string, idi: string, dsp: string)
    requires a.NsapAddr? && |a.address| <= NASIZE && Explode(a.address) == code + idi + dsp && |code| == 2
    requires r.entry in AFIS && ReadEntry(r.entry, code) == Some(r) && |idi| == r.entry.idiLen
    ensures var text := FormOf(r.entry.name, Strip(r.pad, idi), r.mark, DspText(r.mark, 2 + |idi|, dsp));
            ParseNet(table, text) == Some(a)
            <==> AllDigits(idi) && PadGood(r.pad, idi) && DspGood(r.mark, 2 + |idi|, dsp)
                 && (IsX121(r.entry) ==> dsp != []) && a.community == NsapSubnet(table, text, a.address)
  {
    hide *;
    var e := r.entry;
    IdiPlusless(a.address, code, idi, dsp, r.pad);
    PluslessPlus(Strip(r.pad, idi));
    TableCoded(e);
    ReadingPad(e, code, r);
    StripKeepsDigits(r.pad, idi);
    FormExact(e, code, r, a.address, idi, dsp);
    FormParsed(table, e, Strip(r.pad, idi), r.mark, DspText(r.mark, 2 + |idi|, dsp), a);
    NoDsp(a.address, r, code, idi, dsp);
  }

  lemma NsapFormRoundTrip(table: seq<Community>, a: NetAddr, r: Reading)
    requires a.NsapAddr? && |a.address| <= NASIZE && ReadOctets(a.address) == Some(r) && PrintNsap(a.address).Some?
    ensures ParseNet(table, PrintNsap(a.address).value) == Some(a)
            <==> Readable(table, a, PrintNsap(a.address).value)
  {
    var b := a.address;
    var idi, dsp := FormPieces(b, r);
    NsapReadable(table, a, PrintNsap(b).value, r, idi, dsp);
    hide *;
    FormVerdict(table, a, r, Explode(b)[..2], idi, dsp);
  }

  lemma PluslessPlus(s: string)
    requires Plusless(s)
    ensures '+' !in s
  {
  }

  lemma SettleNsap(table: seq<Community>, text: string, b: seq<Octet>, dte: string)
    ensures Settle(table, NsapAddr(TextSubnet(table, text), b)) == NsapAddr(NsapSubnet(table, text, b), b)
    ensures Settle(table, X25Addr(SUBNET_INT_X25, dte, [], [])).X25Addr?
    ensures Gate(table, text) ==> var a := ParseBody(TextSubnet(table, text), text);
            ParseNet(table, text) == if a.None? then None else Some(Settle(table, a.value))
  {
  }

  lemma NsapReadable(table: seq<Community>, a: NetAddr, text: string, r: Reading, idi: string, dsp: string)
    requires a.NsapAddr? && ReadOctets(a.address) == Some(r) && 2 * |a.address| >= 2 + r.entry.idiLen
    requires idi == Explode(a.address)[2..2 + r.entry.idiLen] && dsp == Explode(a.address)[2 + r.entry.idiLen..]
    ensures Readable(table, a, text)
            <==> AllDigits(idi) && PadGood(r.pad, idi) && DspGood(r.mark, 2 + r.entry.idiLen, dsp)
                 && (IsX121(r.entry) ==> dsp != []) && a.community == NsapSubnet(table, text, a.address)
  {
    hide Explode, PadGood, DspGood, ReadOctets, NsapSubnet;
  }

  lemma FormGate(table: seq<Community>, e: Afi, idi: string, mark: Mark, d: string)
    requires e in AFIS
    ensures Gate(table, FormOf(e.name, idi, mark, d))
  {
    var rest := idi + if d == [] then "" else "+" + [MarkChar(mark)] + d;
    AfiStarts(e, rest);
    hide AFIS;
    Assoc(e.name + "+", idi, if d == [] then "" else "+" + [MarkChar(mark)] + d);
  }

  /** With an AFI+IDI of even length a canonical DSP prints as nothing only when there is
      none; X121 is such. */
  lemma NoDsp(b: seq<Octet>, r: Reading, code: string, idi: string, dsp: string)
    requires Explode(b) == code + idi + dsp && |code| == 2 && |idi| == r.entry.idiLen
    ensures IsX121(r.entry) && DspGood(r.mark, 2 + |idi|, dsp)
            ==> (DspText(r.mark, 2 + |idi|, dsp) == [] <==> dsp == [])
  {
    hide Explode;
    Pieces(b, r.mark, code, idi, dsp);
    assert IsX121(r.entry) ==> |idi| == 14;
  }

  lemma NsRoundTrip(table: seq<Community>, a: NetAddr)
    requires a.NsapAddr? && |a.address| <= NASIZE && ReadOctets(a.address).None?
    ensures ParseNet(table, PrintNsap(a.address).value) == Some(a)
            <==> Readable(table, a, PrintNsap(a.address).value)
  {
    var b := a.address;
    var text := "NS+" + Explode(b);
    assert PrintNsap(b) == Some(text);
    hide Explode, PrintNsap;
    NsBack(TextSubnet(table, text), b);
    NsIsNoAfi(Explode(b));
    NsHas(Explode(b));
    SettleNsap(table, text, b, "");
  }

  lemma NsHas(hex: string)
    ensures Has("NS+" + hex, '+')
  {
    NsName();
    hide *;
    CutAt("NS", '+', hex);
  }

  /** Printing a network address and parsing the text gives the address back exactly when
      Readable says so: for a TCP address, no transport set without a port; for an X.25
      address, no call user data behind a PID; for an NSAP address, canonical octets; and
      always, that the table leads back to the address's own community. */
  lemma NetRoundTrip(table: seq<Community>, a: NetAddr)
    requires Sound(table, a) && NetText(table, a).Some?
    ensures ParseNet(table, NetText(table, a).value) == Some(a) <==> Readable(table, a, NetText(table, a).value)
  {
    match a {
      case NsapAddr(_, b) =>
        assert NetText(table, a) == PrintNsap(b);
        if ReadOctets(b).None? {
          NsRoundTrip(table, a);
        } else {
          NsapFormRoundTrip(table, a, ReadOctets(b).value);
        }
      case TcpAddr(_, _, _, _) => TcpRoundTrip(table, a);
      case X25Addr(_, _, _, _) => X25RoundTrip(table, a);
    }
  }

  // ---------------------------------------------------------------- the parser step by step

  /** The text behind the AFI name. */
  method ReadDsp(subnet: int, e: Afi, rest: string) returns (r: Option<NetAddr>)
    ensures r == ParseDsp(subnet, e, Before(rest, '+'), After(rest, '+'))
  {
    hide ParseForm, ParseTcp, ParseX25, IndexOf, Same;
    var idi, dsp := Before(rest, '+'), After(rest, '+');
    if !AllDigits(idi) {
      return None;
    }
    if Same(e.name, "X121") && dsp == [] {
      return if |idi| > NSAP_DTELEN then None else Some(X25Addr(SUBNET_INT_X25, idi, [], []));
    }
    if dsp == [] || dsp[0] == 'd' || dsp[0] == 'x' || dsp[0] == 'l' {
      var b := ReadForm(e, idi, dsp);
      return if b.None? then None else Some(NsapAddr(subnet, b.value));
    }
    if Prefix(RFC1006, dsp) {
      return ParseTcp(subnet, dsp[|RFC1006|..]);
    }
    if Prefix(X25_80, dsp) {
      return ParseX25(subnet, dsp[|X25_80|..]);
    }
    r := None;
  }

  /** One address, from the choice of its community to the last correction of it. */
  method ReadNet(table: seq<Community>, text: string) returns (r: Option<NetAddr>)
    requires Gate(table, text) && Ascii(text)
    ensures r == ParseNet(table, text)
  {
    hide ParseDsp, Implode, IndexOf, Gate;
    var c := ScanValues(table, text);
    var subnet := if c.Some? then c.value.subnet else SUBNET_REALNS;
    var name, rest := Before(text, '+'), After(text, '+');
    if Same(name, "NS") {
      var b := ImplodeLoop(rest);
      r := if Fitting(b).None? then None else Some(NsapAddr(subnet, b.value));
    } else {
      var e := FindAfi(name);
      if e.None? {
        return None;
      }
      r := ReadDsp(subnet, e.value, rest);
    }
    if r.Some? && r.value.NsapAddr? {
      var p := ScanPrefixes(table, r.value.address);
      if p.Some? {
        r := Some(NsapAddr(p.value.subnet, r.value.address));
      }
    }
  }

  // ---------------------------------------------------------------- community values

  /** Every value made of an AFI name, an IDI, the exact tag and a prefix field is shaped. */
  lemma ShapedValue(e: Afi, idi: string, tag: string, field: string)
    requires e in AFIS && AllDigits(idi) && '+' !in field && '+' !in tag
    ensures Shaped(TaggedValue(e.name, idi, tag, field), tag + ['+'])
  {
    TablePlain(e);
    TableNamed(e);
    NotNs(e.name);
    DigitsPlusless(idi);
    hide AFIS, Named, AllDigits, Same;
    var r3 := field + ['+'];
    var r2 := tag + ['+'] + r3;
    CutAt(e.name, '+', idi + ['+'] + r2);
    CutAt(idi, '+', r2);
    CutAt(tag, '+', r3);
    LastCut(field);
    hide Has, Before, After;
  }

  // ---------------------------------------------------------------- tables without overlap

  /** No community's value starts another's, except within one subnet. */
  ghost predicate ValueFree(table: seq<Community>) {
    forall c, d :: c in table && d in table && Starts(c, d) ==> c.subnet == d.subnet
  }

  predicate Starts(c: Community, d: Community) {
    c.value.Some? && d.value.Some? && c.value.value != [] && Prefix(c.value.value, d.value.value)
  }

  /** With such a table the text leads every TCP and X.25 address back to its community, so
      it comes back exactly when its community's value carries it. */
  lemma ValueFreeReads(table: seq<Community>, a: NetAddr)
    requires ValueFree(table) && Sound(table, a) && !a.NsapAddr?
    ensures NetText(table, a).Some?
    ensures ParseNet(table, NetText(table, a).value) == Some(a)
            <==> X121Form(a) || Carried(OwnValue(table, a), a) || (a.X25Addr? && JustDigits(OwnValue(table, a), a))
  {
    hide ParseNet, Shaped, JustX121, Macro2Comm;
    NetRoundTrip(table, a);
    if !X121Form(a) {
      var own := Own(table, a.community).value;
      var t := if a.TcpAddr? then a.domain + PortText(a.port, a.tset) else a.dte + FieldText(a.pid, a.cudf);
      if a.TcpAddr? {
        TcpText(table, a);
      } else {
        X25Text(table, a);
      }
      LeadsHome(table, own, t);
    }
  }

  lemma LeadsHome(table: seq<Community>, own: Community, t: string)
    requires ValueFree(table) && own in table && own.value.Some? && own.value.value != []
    ensures TextSubnet(table, LeadText(own.value.value) + t) == own.subnet
  {
    var text := LeadText(own.value.value) + t;
    OwnStarts(table, own, t);
    var c := ByText(table, text).value;
    assert text[..|own.value.value|] == own.value.value;
    assert ValueFits(own, text);
    assert own.value.value == c.value.value[..|own.value.value|];
  }
}
