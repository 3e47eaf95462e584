/** Network addresses as RFC 1278 lets a person write them: what str2paddr makes of each form
    of its grammar, told by the text and the address alone. */
module NetworkText {
  import opened Options
  import opened Digits
  import opened Addresses
  import opened Macros
  import opened NsapText
  import opened AddressText
  import S = SelectorText

  // ---------------------------------------------------------------- fields

  /** Fields joined by '+'. */
  function Joined(fields: seq<string>): string
    requires fields != []
  {
    if |fields| == 1 then fields[0] else fields[0] + ['+'] + Joined(fields[1..])
  }

  lemma JoinedCut(fields: seq<string>)
    requires |fields| >= 2 && '+' !in fields[0]
    ensures var s := Joined(fields);
            Has(s, '+') && Before(s, '+') == fields[0] && After(s, '+') == Joined(fields[1..])
  {
    CutAt(fields[0], '+', Joined(fields[1..]));
  }

  /** The first two fields are an AFI, in any case, and an IDI of digits. */
  predicate Begins(e: Afi, fields: seq<string>) {
    |fields| >= 2 && e in AFIS && Same(fields[0], e.name) && '+' !in fields[0] && AllDigits(fields[1])
  }

  lemma AnyCase(e: Afi, name: string)
    requires e in AFIS && Same(name, e.name)
    ensures Named(AFIS, name) == Some(e) && !Same(name, "NS")
  {
    TableNamed(e);
    SameNamed(AFIS, name, e.name);
    NamesLong(e);
    NotNs(name);
  }

  lemma NamesLong(e: Afi)
    requires e in AFIS
    ensures |e.name| >= 3
  {
  }

  lemma {:induction false} SameNamed(entries: seq<Afi>, a: string, b: string)
    requires Same(a, b)
    ensures Named(entries, a) == Named(entries, b)
  {
    if entries != [] {
      SameNamed(entries[1..], a, b);
    }
  }

  /** The parser finds AFI and IDI and looks at the rest. */
  lemma FormRead(subnet: int, e: Afi, fields: seq<string>)
    requires Begins(e, fields)
    ensures ParseBody(subnet, Joined(fields))
         == ParseDsp(subnet, e, fields[1], if |fields| == 2 then [] else Joined(fields[2..]))
  {
    AnyCase(e, fields[0]);
    JoinedCut(fields);
    DigitsPlusless(fields[1]);
    BodyOf(subnet, Joined(fields));
    if |fields| == 2 {
      assert Joined(fields[1..]) == fields[1];
      CutNone(fields[1], '+');
    } else {
      JoinedCut(fields[1..]);
      assert fields[1..][1..] == fields[2..];
    }
    hide ParseBody, ParseDsp, Joined, Named;
  }

  // ---------------------------------------------------------------- TCP

  /** A 16-bit number. */
  function Short(digits: string): Option<nat> {
    if Val(digits) < 0x1_0000 then Some(Val(digits)) else None
  }

  /** A prefix, a host, and then nothing, a port, or a port and a transport set. */
  predicate TcpFields(fields: seq<string>, q: Quad) {
    && 5 <= |fields| <= 7 && '+' !in fields[3] && fields[4] == Dotted(q)
    && forall i :: 5 <= i < |fields| ==> fields[i] != [] && AllDigits(fields[i])
  }

  /** The TCP address of these numbers, if they fit. */
  function TcpOf(subnet: int, fields: seq<string>, q: Quad): Option<NetAddr> {
    var port := if |fields| >= 6 then Short(fields[5]) else Some(0);
    var tset := if |fields| >= 7 then Short(fields[6]) else Some(0);
    if port.None? || tset.None? then None else Some(TcpAddr(subnet, Dotted(q), port.value, tset.value))
  }

  /** AFI, IDI, RFC-1006, and the fields of a TCP address. */
  lemma TcpForm(subnet: int, e: Afi, fields: seq<string>, q: Quad)
    requires Begins(e, fields) && TcpFields(fields, q) && fields[2] == "RFC-1006"
    ensures ParseBody(subnet, Joined(fields)) == TcpOf(subnet, fields, q)
  {
    var y := Joined(fields[3..]);
    BeginsDigits(e, fields);
    TagIs(fields);
    hide *;
    FormRead(subnet, e, fields);
    TagJoined(fields, RFC1006);
    DspTcp(subnet, e, fields[1], y);
    TcpRest(subnet, fields, q);
  }

  lemma BeginsDigits(e: Afi, fields: seq<string>)
    requires Begins(e, fields)
    ensures |fields| >= 2 && AllDigits(fields[1])
  {
  }

  lemma TagIs(fields: seq<string>)
    requires |fields| >= 5
    ensures fields[2] == "RFC-1006" ==> fields[2] + ['+'] == RFC1006
    ensures fields[2] == "X.25(80)" ==> fields[2] + ['+'] == X25_80
  {
  }

  lemma TcpRest(subnet: int, fields: seq<string>, q: Quad)
    requires TcpFields(fields, q)
    ensures ParseTcp(subnet, Joined(fields[3..])) == TcpOf(subnet, fields, q)
  {
    DottedPlusless(q);
    JoinedCut(fields[3..]);
    HostFields(fields);
    PortFields(fields);
    LiteralDotted(q);
    var s, more := Joined(fields[3..]), if |fields| == 5 then [] else Joined(fields[5..]);
    hide Joined, Dotted, LiteralHost, IndexOf, Before, After, Has, U16, Short, ParseTcp, TcpOf, AllDigits, Plusless;
    TcpUnfold(subnet, s, q, more);
    TcpOfUnfold(subnet, fields, q);
  }

  lemma TcpUnfold(subnet: int, s: string, q: Quad, more: string)
    requires var t := After(s, '+');
             Has(s, '+') && LiteralHost(Before(t, '+')) == Some(q) && After(t, '+') == more
    ensures ParseTcp(subnet, s)
         == if more == [] then Some(TcpAddr(subnet, Dotted(q), 0, 0))
            else
              var port := U16(Before(more, '+'));
              var tset := if After(more, '+') == [] then Some(0) else U16(After(more, '+'));
              if port.None? || tset.None? then None else Some(TcpAddr(subnet, Dotted(q), port.value, tset.value))
  {
    hide Dotted, LiteralHost, Before, After, Has, U16;
  }

  lemma TcpOfUnfold(subnet: int, fields: seq<string>, q: Quad)
    requires 5 <= |fields| <= 7
    ensures |fields| == 5 ==> TcpOf(subnet, fields, q) == Some(TcpAddr(subnet, Dotted(q), 0, 0))
    ensures |fields| >= 6 ==>
              var port, tset := Short(fields[5]), if |fields| == 6 then Some(0) else Short(fields[6]);
              TcpOf(subnet, fields, q)
              == if port.None? || tset.None? then None else Some(TcpAddr(subnet, Dotted(q), port.value, tset.value))
  {
    hide Dotted, Short;
  }

  lemma TagJoined(fields: seq<string>, tag: string)
    requires |fields| >= 4 && fields[2] + ['+'] == tag
    ensures Joined(fields[2..]) == tag + Joined(fields[3..])
  {
    assert fields[2..][1..] == fields[3..];
  }

  lemma HostFields(fields: seq<string>)
    requires 5 <= |fields| && '+' !in fields[4]
    ensures fields[3..][1..] == fields[4..]
    ensures var t := Joined(fields[4..]);
            Before(t, '+') == fields[4] && After(t, '+') == if |fields| == 5 then [] else Joined(fields[5..])
  {
    if |fields| == 5 {
      CutNone(fields[4], '+');
    } else {
      JoinedCut(fields[4..]);
      assert fields[4..][1..] == fields[5..];
    }
  }

  lemma PortFields(fields: seq<string>)
    requires 5 <= |fields| <= 7
    requires forall i :: 5 <= i < |fields| ==> fields[i] != [] && AllDigits(fields[i])
    ensures |fields| >= 6 ==>
              var m := Joined(fields[5..]);
              m != [] && Before(m, '+') == fields[5] && After(m, '+') == (if |fields| == 6 then [] else fields[6])
    ensures forall i :: 5 <= i < |fields| ==> U16(fields[i]) == Short(fields[i])
  {
    forall i | 5 <= i < |fields|
      ensures U16(fields[i]) == Short(fields[i])
    {
      LeadingAll(fields[i]);
    }
    if |fields| >= 6 {
      DigitsPlusless(fields[5]);
      if |fields| == 6 {
        assert fields[5..] == [fields[5]];
        CutNone(fields[5], '+');
      } else {
        JoinedCut(fields[5..]);
        assert fields[5..][1..] == [fields[6]];
      }
    }
  }

  // ---------------------------------------------------------------- X.25

  /** Hexadecimal digits, in either case, that spell at most `room` octets. */
  predicate Spells(hex: string, room: nat, b: seq<Octet>) {
    |hex| <= 2 * room && Explode(b) == S.Lowered(hex)
  }

  lemma HexSpells(hex: string, room: nat)
    ensures Implode(hex).Some? ==> (Spells(hex, room, Implode(hex).value) <==> |hex| <= 2 * room)
    ensures Implode(hex).None? ==> forall b :: !Spells(hex, room, b)
  {
    if Implode(hex).Some? {
      S.OctetsRead(hex);
    } else {
      S.LoweredHex(hex);
      forall b
        ensures !Spells(hex, room, b)
      {
        ExplodeLower(b);
        hide Explode, S.Lowered;
      }
    }
  }

  /** A prefix and a DTE, and then nothing, or the name of a field and its octets. */
  predicate X25Fields(fields: seq<string>) {
    && (|fields| == 5 || |fields| == 7) && '+' !in fields[3] && AllDigits(fields[4])
    && (|fields| == 7 ==> '+' !in fields[5])
  }

  /** The X.25 address of this DTE, of at most 37 digits, and this CUDF of at most 16 octets or
      PID of at most 4. */
  predicate X25Of(subnet: int, fields: seq<string>, a: NetAddr)
    requires |fields| >= 5
  {
    a.X25Addr? && a.community == subnet && a.dte == fields[4] && |a.dte| <= 37
    && if |fields| < 7 then a.pid == [] && a.cudf == []
       else if Same(fields[5], "CUDF") then a.pid == [] && Spells(fields[6], 16, a.cudf)
       else Same(fields[5], "PID") && a.cudf == [] && Spells(fields[6], 4, a.pid)
  }

  /** AFI, IDI, X.25(80), and the fields of an X.25 address; the name of a field may be in any
      case. */
  lemma X25Form(subnet: int, e: Afi, fields: seq<string>)
    requires Begins(e, fields) && X25Fields(fields) && fields[2] == "X.25(80)"
    ensures match ParseBody(subnet, Joined(fields))
            case Some(a) => X25Of(subnet, fields, a)
            case None => forall a :: !X25Of(subnet, fields, a)
  {
    var y := Joined(fields[3..]);
    BeginsDigits(e, fields);
    TagIs(fields);
    hide *;
    FormRead(subnet, e, fields);
    TagJoined(fields, X25_80);
    DspX25(subnet, e, fields[1], y);
    X25Rest(subnet, fields);
  }

  lemma X25Rest(subnet: int, fields: seq<string>)
    requires X25Fields(fields)
    ensures match ParseX25(subnet, Joined(fields[3..]))
            case Some(a) => X25Of(subnet, fields, a)
            case None => forall a :: !X25Of(subnet, fields, a)
  {
    DigitsPlusless(fields[4]);
    JoinedCut(fields[3..]);
    HostFields(fields);
    var s := Joined(fields[3..]);
    if |fields| == 5 {
      hide Joined, Before, After, Has, Same, Spells, AllDigits, Plusless, ParseField;
    } else {
      JoinedCut(fields[5..]);
      assert fields[5..][1..] == [fields[6]] && Joined([fields[6]]) == fields[6];
      FieldRead(subnet, fields);
      X25Unfold(subnet, s, fields[4], Joined(fields[5..]));
      hide Joined, Before, After, Has, Same, Spells, AllDigits, Plusless, ParseX25, ParseField, X25Of;
    }
  }

  lemma X25Unfold(subnet: int, s: string, dte: string, more: string)
    requires var t := After(s, '+');
             Has(s, '+') && Before(t, '+') == dte && After(t, '+') == more && Has(more, '+') && AllDigits(dte)
    ensures ParseX25(subnet, s)
         == if |dte| > 37 then None else ParseField(subnet, dte, Before(more, '+'), After(more, '+'))
  {
    assert more != [];
    hide Before, After, AllDigits, ParseField;
  }

  lemma FieldRead(subnet: int, fields: seq<string>)
    requires |fields| == 7
    ensures match if |fields[4]| > 37 then None else ParseField(subnet, fields[4], fields[5], fields[6])
            case Some(a) => X25Of(subnet, fields, a)
            case None => forall a :: !X25Of(subnet, fields, a)
  {
    HexSpells(fields[6], 16);
    HexSpells(fields[6], 4);
    FieldNamesApart(fields[5]);
    hide Same, Spells, Implode;
  }

  lemma FieldNamesApart(name: string)
    ensures !(Same(name, "CUDF") && Same(name, "PID"))
  {
  }

  /** X121 and digits alone: the international X.25 address of at most 36 digits. */
  lemma DigitsForm(subnet: int, fields: seq<string>)
    requires Begins(X121, fields) && |fields| == 2
    ensures ParseBody(subnet, Joined(fields))
         == if |fields[1]| <= 36 then Some(X25Addr(SUBNET_INT_X25, fields[1], [], [])) else None
  {
    FormRead(subnet, X121, fields);
    OnlyX121(X121);
  }

  // ---------------------------------------------------------------- NSAPs

  /** NS, in any case, and the octets in hexadecimal. */
  lemma NsForm(subnet: int, name: string, hex: string)
    requires Same(name, "NS") && '+' !in name
    ensures match ParseBody(subnet, Joined([name, hex]))
            case Some(a) => a.NsapAddr? && a.community == subnet && Spells(hex, 64, a.address)
            case None => forall b :: !Spells(hex, 64, b)
  {
    BodyNs(subnet, name, hex);
    HexSpells(hex, 64);
    assert Joined([name, hex]) == name + ['+'] + hex;
    hide ParseBody, Spells, Joined, Same;
  }

  /** AFI and IDI: of the two AFIs of a syntax the second, with ones in front of the IDI, for
      an IDI with a leading zero where there is a second; and otherwise the first, with
      zeros. */
  predicate LeadsTo(zero: string, one: Option<string>, len: nat, idi: string, lead: string) {
    var first := idi == [] || idi[0] != '0' || one.None?;
    var n := if |idi| < len then len - |idi| else 0;
    lead == (if first then zero else one.value) + seq(n, _ => if first then '0' else '1') + idi
  }

  lemma LeadMeans(zero: string, one: Option<string>, len: nat, idi: string)
    ensures LeadsTo(zero, one, len, idi, Lead(zero, one, len, idi))
  {
    var n := if |idi| < len then len - |idi| else 0;
    RepSeq('0', n);
    RepSeq('1', n);
    assert len - |idi| < 0 ==> Rep('0', len - |idi|) == [] && Rep('1', len - |idi|) == [];
    hide Rep;
  }

  lemma {:induction false} RepSeq(c: char, n: nat)
    ensures Rep(c, n) == seq(n, _ => c)
  {
    if n > 0 {
      RepSeq(c, n - 1);
      assert [c] + seq(n - 1, _ => c) == seq(n, _ => c);
    }
  }

  /** What the text form of an NSAP stands for: the nibbles of AFI and IDI, of digits or of
      hexadecimal behind a pad to a whole octet, or the octets of characters. */
  ghost predicate NsapOf(e: Afi, idi: string, dsp: string, b: seq<Octet>) {
    |b| <= 64
    && if dsp == [] || dsp[0] == 'd' then
         var digits := if dsp == [] then [] else dsp[1..];
         exists lead :: LeadsTo(e.dec0, e.dec1, e.idiLen, idi, lead)
                        && Explode(b) == lead + digits + Pad2(lead + digits)
       else if dsp[0] == 'x' then
         exists lead :: LeadsTo(e.hex0, e.hex1, e.idiLen, idi, lead)
                        && Explode(b) == lead + Pad2(lead) + S.Lowered(dsp[1..])
       else
         dsp[0] == 'l' && e.ia5 == Some("50") && |b| == |dsp| && b[0] == 0x50
         && forall i :: 1 <= i < |b| ==> b[i] == dsp[i] as int
  }

  function Pad2(nibbles: string): string {
    if |nibbles| % 2 == 1 then "f" else ""
  }

  /** AFI, IDI, and a DSP marked as digits, hexadecimal or characters; digits when there is
      none. */
  lemma NsapForm(subnet: int, e: Afi, fields: seq<string>)
    requires Begins(e, fields) && |fields| <= 3
    requires |fields| == 3 ==> fields[2] != [] && (fields[2][0] == 'd' || fields[2][0] == 'x' || fields[2][0] == 'l')
    requires |fields| == 3 && fields[2][0] == 'd' ==> AllDigits(fields[2][1..])
    requires e == X121 ==> |fields| == 3
    ensures var dsp := if |fields| == 3 then fields[2] else [];
            match ParseBody(subnet, Joined(fields))
            case Some(a) => a.NsapAddr? && a.community == subnet && NsapOf(e, fields[1], dsp, a.address)
            case None => forall b :: !NsapOf(e, fields[1], dsp, b)
  {
    var dsp := if |fields| == 3 then fields[2] else [];
    FormRead(subnet, e, fields);
    OnlyX121(e);
    assert |fields| == 3 ==> Joined(fields[2..]) == fields[2];
    BeginsDigits(e, fields);
    assert ParseDsp(subnet, e, fields[1], dsp)
        == var b := ParseForm(e, fields[1], dsp); if b.None? then None else Some(NsapAddr(subnet, b.value));
    hide ParseBody, ParseDsp, Joined, NsapOf, ParseForm, AllDigits;
    if dsp == [] || dsp[0] == 'd' {
      DecimalForm(e, fields[1], dsp);
    } else if dsp[0] == 'x' {
      HexForm(e, fields[1], dsp);
    } else {
      Ia5Form(e, fields[1], dsp);
    }
  }

  ghost predicate FormStands(e: Afi, idi: string, dsp: string) {
    match ParseForm(e, idi, dsp)
    case Some(b) => NsapOf(e, idi, dsp, b)
    case None => forall b :: !NsapOf(e, idi, dsp, b)
  }

  lemma DecimalForm(e: Afi, idi: string, dsp: string)
    requires e in AFIS && AllDigits(idi) && (dsp != [] ==> dsp[0] == 'd' && AllDigits(dsp[1..]))
    ensures FormStands(e, idi, dsp)
  {
    var digits := if dsp == [] then [] else dsp[1..];
    var lead := Lead(e.dec0, e.dec1, e.idiLen, idi);
    LeadMeans(e.dec0, e.dec1, e.idiLen, idi);
    LeadDigits(e, e.dec0, e.dec1, idi);
    AllDigitsConcat(lead, digits);
    ExplodePack(lead + digits);
    assert ParseForm(e, idi, dsp) == Fitting(Pack(lead + digits));
    hide Lead, Explode, Pack, AllDigits, ParseForm;
  }

  lemma LeadDigits(e: Afi, zero: string, one: Option<string>, idi: string)
    requires e in AFIS && AllDigits(idi) && ((zero == e.dec0 && one == e.dec1) || (zero == e.hex0 && one == e.hex1))
    ensures AllDigits(Lead(zero, one, e.idiLen, idi))
  {
    var (code, pad) := Choose(zero, one, idi);
    assert AllDigits(code);
    RepDigits(pad, e.idiLen - |idi|);
    AllDigitsConcat(code, Rep(pad, e.idiLen - |idi|));
    AllDigitsConcat(code + Rep(pad, e.idiLen - |idi|), idi);
  }

  lemma HexForm(e: Afi, idi: string, dsp: string)
    requires e in AFIS && AllDigits(idi) && dsp != [] && dsp[0] == 'x'
    ensures FormStands(e, idi, dsp)
  {
    var hex := dsp[1..];
    var lead := Lead(e.hex0, e.hex1, e.idiLen, idi);
    LeadMeans(e.hex0, e.hex1, e.idiLen, idi);
    LeadDigits(e, e.hex0, e.hex1, idi);
    ExplodePack(lead);
    HexParsed(e, idi, dsp);
    HexSpelt(lead, hex);
    hide *;
    HexStands(e, idi, dsp, lead, Join(Pack(lead).value, Implode(hex)));
    Stands(e, idi, dsp);
  }

  lemma Stands(e: Afi, idi: string, dsp: string)
    requires match ParseForm(e, idi, dsp)
             case Some(b) => NsapOf(e, idi, dsp, b)
             case None => forall b :: !NsapOf(e, idi, dsp, b)
    ensures FormStands(e, idi, dsp)
  {
  }

  lemma HexSpelt(lead: string, hex: string)
    requires Pack(lead).Some? && Explode(Pack(lead).value) == lead + Trail(lead)
    ensures match Join(Pack(lead).value, Implode(hex))
            case Some(b) => Explode(b) == lead + Pad2(lead) + S.Lowered(hex)
            case None => forall b :: Explode(b) != lead + Pad2(lead) + S.Lowered(hex)
  {
    hide Explode, S.Lowered, Pack, AllHex, LowerHex;
    assert Trail(lead) == Pad2(lead);
    HexEnds(hex);
    if Implode(hex).Some? {
      ExplodeConcat(Pack(lead).value, Implode(hex).value);
    } else {
      TailHex(lead + Pad2(lead), S.Lowered(hex));
      hide Implode;
    }
  }

  lemma HexEnds(hex: string)
    ensures Implode(hex).Some? ==> Explode(Implode(hex).value) == S.Lowered(hex)
    ensures LowerHex(S.Lowered(hex)) ==> AllHex(hex)
  {
    S.LoweredHex(hex);
    if Implode(hex).Some? {
      S.OctetsRead(hex);
    }
  }

  lemma HexStands(e: Afi, idi: string, dsp: string, lead: string, r: Option<seq<Octet>>)
    requires dsp != [] && dsp[0] == 'x' && LeadsTo(e.hex0, e.hex1, e.idiLen, idi, lead)
    requires match r
             case Some(b) => Explode(b) == lead + Pad2(lead) + S.Lowered(dsp[1..])
             case None => forall b :: Explode(b) != lead + Pad2(lead) + S.Lowered(dsp[1..])
    ensures match Fitting(r)
            case Some(b) => NsapOf(e, idi, dsp, b)
            case None => forall b :: !NsapOf(e, idi, dsp, b)
  {
    hide Explode, S.Lowered;
  }

  lemma HexParsed(e: Afi, idi: string, dsp: string)
    requires AllDigits(idi) && dsp != [] && dsp[0] == 'x'
    ensures var lead := Pack(Lead(e.hex0, e.hex1, e.idiLen, idi));
            ParseForm(e, idi, dsp) == if lead.None? then None else Fitting(Join(lead.value, Implode(dsp[1..])))
  {
    hide Pack, Lead, Implode;
  }

  /** Text that is not hexadecimal is at the end of no octets. */
  lemma TailHex(s: string, t: string)
    ensures !LowerHex(t) ==> forall b :: Explode(b) != s + t
  {
    forall b | Explode(b) == s + t
      ensures LowerHex(t)
    {
      ExplodeLower(b);
      assert forall i :: 0 <= i < |t| ==> t[i] == Explode(b)[|s| + i];
      hide Explode;
    }
  }

  lemma Ia5Form(e: Afi, idi: string, dsp: string)
    requires e in AFIS && AllDigits(idi) && dsp != [] && dsp[0] == 'l'
    ensures FormStands(e, idi, dsp)
  {
    var chars := dsp[1..];
    S.CodesRead(chars);
    assert e.ia5.Some? ==> e.ia5 == Some("50");
    PackFifty();
    hide CharOctets, Pack, AllDigits, AFIS;
    assert ParseForm(e, idi, dsp) == ParseIa5(e, chars);
    assert forall i :: 1 <= i < |dsp| ==> dsp[i] == chars[i - 1];
    if e.ia5.Some? && CharOctets(chars).None? {
      var i :| 0 <= i < |chars| && chars[i] as int >= 256;
      assert forall b: seq<Octet> :: |b| == |dsp| ==> b[i + 1] < 256;
    }
  }

  lemma PackFifty()
    ensures Pack("50") == Some([0x50])
  {
    assert "50"[2..] == "" && PairOctet('5', '0') == 0x50;
    assert [0x50 as Octet] + [] == [0x50];
  }

  // ---------------------------------------------------------------- the whole of one address

  /** A text that starts with an AFI as the table spells it, or with the value of a community,
      is read for that community, and for none otherwise; an NSAP address then belongs to the
      community with the longest prefix it has, if there is one. */
  lemma FormInTable(table: seq<Community>, e: Afi, fields: seq<string>)
    requires Begins(e, fields) && (fields[0] == e.name || ByText(table, Joined(fields)).Some?)
    ensures var text := Joined(fields);
            var subnet := if ByText(table, text).Some? then ByText(table, text).value.subnet else SUBNET_REALNS;
            var b := ParseBody(subnet, text);
            ParseNet(table, text)
            == if b.Some? && b.value.NsapAddr? && ByPrefix(table, b.value.address).Some?
               then Some(NsapAddr(ByPrefix(table, b.value.address).value.subnet, b.value.address)) else b
  {
    JoinedCut(fields);
    var rest := Joined(fields[1..]);
    AfiStarts(e, rest);
    assert Joined(fields) == fields[0] + ['+'] + rest;
    assert e.name + "+" + rest == e.name + ['+'] + rest;
    hide StartsAfi, ByText, ByPrefix, ParseBody, Joined, Has, Before, After, AFIS;
  }

  // ---------------------------------------------------------------- printing

  lemma {:induction false} JoinedConcat(a: seq<string>, b: seq<string>)
    requires a != [] && b != []
    ensures Joined(a + b) == Joined(a) + ['+'] + Joined(b)
  {
    if |a| == 1 {
      assert (a + b)[1..] == b;
    } else {
      JoinedConcat(a[1..], b);
      assert (a + b)[1..] == a[1..] + b;
      Assoc(a[0] + ['+'], Joined(a[1..]), ['+'] + Joined(b));
    }
  }

  /** The value of the address's community, as fields. */
  predicate ValueIs(table: seq<Community>, a: NetAddr, value: seq<string>) {
    var own := Own(table, a.community);
    own.Some? && own.value.value.Some? && value != [] && LeadText(own.value.value.value) == Joined(value) + ['+']
  }

  /** A TCP address is printed as the fields of its community's value, its host, and its port
      if it has one, and then its transport set if it has one. */
  lemma TcpPrinted(table: seq<Community>, a: NetAddr, value: seq<string>)
    requires a.TcpAddr? && ValueIs(table, a, value)
    ensures NetText(table, a)
         == Some(Joined(value + if a.port == 0 then [a.domain]
                                else if a.tset == 0 then [a.domain, Dec(a.port)]
                                else [a.domain, Dec(a.port), Dec(a.tset)]))
  {
    var rest := if a.port == 0 then [a.domain]
                else if a.tset == 0 then [a.domain, Dec(a.port)] else [a.domain, Dec(a.port), Dec(a.tset)];
    JoinedConcat(value, rest);
    ThreeJoined(a.domain, Dec(a.port), Dec(a.tset));
    TcpShown(table, a);
    PortFieldsText(a.port, a.tset);
    hide NetText, Joined, Own, LeadText, Dec, PortText;
    Assoc(Joined(value) + ['+'], a.domain, PortText(a.port, a.tset));
    Assoc(Joined(value), ['+'], Joined(rest));
    assert a.domain + PortText(a.port, a.tset) == Joined(rest);
  }

  lemma PortFieldsText(port: nat, tset: nat)
    ensures PortText(port, tset)
         == if port == 0 then "" else if tset == 0 then "+" + Dec(port) else "+" + Dec(port) + ("+" + Dec(tset))
  {
    hide Dec;
  }

  lemma TcpShown(table: seq<Community>, a: NetAddr)
    requires a.TcpAddr? && Own(table, a.community).Some? && Own(table, a.community).value.value.Some?
    ensures NetText(table, a)
         == Some(LeadText(Own(table, a.community).value.value.value) + a.domain + PortText(a.port, a.tset))
  {
    hide LeadText, PortText, Own;
  }

  lemma OneMore(a: string, rest: seq<string>)
    requires rest != []
    ensures Joined([a] + rest) == a + ("+" + Joined(rest))
  {
    assert ([a] + rest)[1..] == rest;
  }

  lemma ThreeJoined(a: string, b: string, c: string)
    ensures Joined([a]) == a && Joined([a, b]) == a + ("+" + b) && Joined([a, b, c]) == a + ("+" + b + ("+" + c))
  {
    OneMore(a, [b]);
    OneMore(b, [c]);
    OneMore(a, [b, c]);
    assert [a] + [b] == [a, b] && [b] + [c] == [b, c] && [a] + [b, c] == [a, b, c];
    Assoc("+", b, "+" + c);
  }

  /** An X.25 address is printed as X121 and its digits, or as the fields of its community's
      value, its DTE, and its PID or else its CUDF in hexadecimal if it has one. */
  lemma X25Printed(table: seq<Community>, a: NetAddr, value: seq<string>)
    requires a.X25Addr? && ValueIs(table, a, value)
    ensures NetText(table, a)
         == Some(Joined(if X121Form(a) then ["X121", a.dte]
                        else value + if a.pid != [] then [a.dte, "PID", Explode(a.pid)]
                                     else if a.cudf != [] then [a.dte, "CUDF", Explode(a.cudf)] else [a.dte]))
  {
    if X121Form(a) {
      ThreeJoined("X121", a.dte, "");
      assert "X121+" + a.dte == "X121" + ("+" + a.dte);
    } else {
      var rest := if a.pid != [] then [a.dte, "PID", Explode(a.pid)]
                  else if a.cudf != [] then [a.dte, "CUDF", Explode(a.cudf)] else [a.dte];
      JoinedConcat(value, rest);
      ThreeJoined(a.dte, "PID", Explode(a.pid));
      ThreeJoined(a.dte, "CUDF", Explode(a.cudf));
      X25Shown(table, a);
      NamedFields(Explode(a.pid), Explode(a.cudf));
      FieldsText(a.pid, a.cudf);
      hide NetText, Joined, Own, LeadText, Explode, FieldText;
      assert a.dte + FieldText(a.pid, a.cudf) == Joined(rest);
      Assoc(Joined(value) + ['+'], a.dte, FieldText(a.pid, a.cudf));
      Assoc(Joined(value), ['+'], Joined(rest));
    }
  }

  lemma FieldsText(pid: seq<Octet>, cudf: seq<Octet>)
    ensures FieldText(pid, cudf)
         == if pid != [] then "+PID+" + Explode(pid) else if cudf != [] then "+CUDF+" + Explode(cudf) else ""
  {
  }

  lemma NamedFields(p: string, c: string)
    ensures "+PID+" + p == "+" + "PID" + ("+" + p) && "+CUDF+" + c == "+" + "CUDF" + ("+" + c)
  {
  }

  lemma X25Shown(table: seq<Community>, a: NetAddr)
    requires a.X25Addr? && !X121Form(a) && Own(table, a.community).Some? && Own(table, a.community).value.value.Some?
    ensures NetText(table, a)
         == Some(LeadText(Own(table, a.community).value.value.value) + a.dte + FieldText(a.pid, a.cudf))
  {
    hide LeadText, FieldText, Own;
  }
}
