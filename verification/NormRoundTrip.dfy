/** When norm2na undoes na2norm: the exact condition, for every table of communities and
    every well-formed address, and what becomes of the other addresses. */
module NormRoundTrip {
  import opened Options
  import opened Digits
  import opened Addresses
  import opened NormCodec

  /** Exactly when norm2na undoes na2norm; every conjunct is checkable before the call. */
  ghost predicate Survives(table: seq<Community>, a: NetAddr) {
    var p := Na2Norm(table, a);
    p.Some?
    && if a.NsapAddr? then KeptWhole(table, a)
       else if X121Form(a) then 1 <= |a.dte| <= 14
       else !LooksX121(p.value) && LedBack(table, a, p.value)
            && (a.X25Addr? && a.pid == [] ==> |a.cudf| <= 9)
  }

  /** Two communities that decode alike. */
  predicate Alike(c: Community, d: Community) {
    c.subnet == d.subnet && c.syntax == d.syntax && c.prefix == d.prefix
  }

  /** The longest prefix in front of the encoding is the one of the address's own community,
      or of another entry that decodes alike. */
  predicate LedBack(table: seq<Community>, a: NetAddr, p: seq<Octet>) {
    var c, own := Pick(table, p), Own(table, a.community);
    c.Some? && own.Some? && Alike(c.value, own.value)
  }

  /** An NSAP address stays one exactly when its longest matching community has the NSAP
      syntax and this subnet, or it is a real NSAP and no community claims it: none matches,
      or the digits behind the prefix do not make an address of the community's syntax. */
  predicate KeptWhole(table: seq<Community>, a: NetAddr)
    requires a.NsapAddr?
  {
    var p := a.address;
    if LooksX121(p) then a.community == SUBNET_REALNS && !Decimal(p[1..])
    else
      var c := Pick(table, p);
      if c.None? then a.community == SUBNET_REALNS
      else if c.value.syntax.NSAP? then a.community == c.value.subnet
      else a.community == SUBNET_REALNS && Unreadable(c.value.syntax, p[|c.value.prefix|..])
  }

  /** Every nibble is a digit, but a low one may be the pad. */
  predicate Decimal(b: seq<Octet>) {
    forall i :: 0 <= i < |b| ==> b[i] / 16 <= 9 && (b[i] % 16 <= 9 || b[i] % 16 == 15)
  }

  /** The digits in decimal octets, pads left out. */
  function DigitsOf(b: seq<Octet>): (s: string)
    requires Decimal(b)
    ensures AllDigits(s)
  {
    if b == [] then []
    else
      (if b[0] % 16 == 15 then [DigitChar(b[0] / 16)] else [DigitChar(b[0] / 16), DigitChar(b[0] % 16)])
      + DigitsOf(b[1..])
  }

  /** Octets that are no address of the syntax: not decimal, or the digits stop in the middle
      of a field or name one that cannot be. */
  predicate Unreadable(syntax: Stack, b: seq<Octet>) {
    !Decimal(b) || if syntax.X25? then NoX25(DigitsOf(b)) else NoTcp(DigitsOf(b))
  }

  /** Twelve digits of host, then none, five of port, or ten and more. */
  predicate NoTcp(d: string) {
    |d| < 12 || 12 < |d| < 17 || 17 < |d| < 22
  }

  /** No indicator or one above 2, no length, too few triples, a PID that is too long, or a
      triple above 255. */
  predicate NoX25(d: string) {
    d == [] || d[0] > '2'
    || (d[0] > '0'
        && (|d| < 2
            || (var n := DigitVal(d[1]);
                |d| < 2 + 3 * n || (d[0] == '1' && n > NPSIZE)
                || exists i :: 0 <= i < n && BigTriple(d, i))))
  }

  predicate BigTriple(d: string, i: nat)
    requires 5 + 3 * i <= |d|
  {
    Val(d[2 + 3 * i..5 + 3 * i]) > 255
  }

  lemma {:induction false} TriplesRoundTrip(b: seq<Octet>, t: string)
    ensures ReadTriples(Triples(b) + t, |b|) == Some(b)
  {
    if b != [] {
      hide Pad, Val;
      var s := Triples(b) + t;
      var u := Triples(b[1..]) + t;
      ValPad(b[0], 3);
      assert s == Pad(b[0], 3) + u;
      assert s[..3] == Pad(b[0], 3) && s[3..] == u;
      TriplesRoundTrip(b[1..], t);
      assert b == [b[0]] + b[1..];
    }
  }

  lemma TcpRoundTrip(subnet: int, q: Quad, port: nat, tset: nat)
    requires port < 65536 && tset < 65536
    ensures DecodeTcp(subnet, TcpDigits(q, port, tset))
         == Some(Normal(TcpAddr(subnet, Dotted(q), port, tset)))
  {
    hide Pad, Val, Dec, Dotted;
    var d := TcpDigits(q, port, tset);
    ValPad(q[0], 3);
    ValPad(q[1], 3);
    ValPad(q[2], 3);
    ValPad(q[3], 3);
    assert d[0..3] == Pad(q[0], 3);
    assert d[3..6] == Pad(q[1], 3);
    assert d[6..9] == Pad(q[2], 3);
    assert d[9..12] == Pad(q[3], 3);
    assert [q[0] as nat, q[1], q[2], q[3]] == q;
    assert Pow10(5) == 100000;
    if port != 0 {
      ValPad(port, 5);
      assert d[12..17] == Pad(port, 5);
      if tset != 0 && tset != NA_TSET_TCP {
        ValPad(tset, 5);
        assert d[17..22] == Pad(tset, 5);
      }
    }
  }

  lemma ShortFieldRead(subnet: int, d: string, f: seq<Octet>, dte: string)
    requires |d| >= 2 && |f| <= 9
    requires d[0] == '1' || d[0] == '2'
    requires d[0] == '1' ==> |f| <= NPSIZE
    requires d[1] == DigitChar(|f|) && d[2..] == Triples(f) + dte
    ensures DecodeX25(subnet, d)
         == Some(if d[0] == '1' then X25Addr(subnet, dte, f, []) else X25Addr(subnet, dte, [], f))
  {
    hide Pad, Val, Triples, ReadTriples;
    TriplesRoundTrip(f, dte);
    assert d[2..][3 * |f|..] == dte;
  }

  lemma FieldShape(mark: char, f: seq<Octet>, dte: string)
    requires 1 <= |f| <= 9
    ensures var d := [mark] + Dec(|f|) + Triples(f) + dte;
            d[0] == mark && d[1] == DigitChar(|f|) && d[2..] == Triples(f) + dte
  {
    hide Triples, Pad;
    assert Dec(|f|) == [DigitChar(|f|)];
    var d := [mark] + Dec(|f|) + Triples(f) + dte;
    assert d == [mark, DigitChar(|f|)] + (Triples(f) + dte);
  }

  lemma LongFieldMisread(subnet: int, f: seq<Octet>, dte: string)
    requires 10 <= |f| <= CUDFSIZE
    ensures var r := DecodeX25(subnet, "2" + Dec(|f|) + Triples(f) + dte);
            r.Some? ==> |r.value.cudf| == 1
  {
    hide Pad, Val, Triples, ReadTriples;
    var d := "2" + Dec(|f|) + Triples(f) + dte;
    assert |f| / 10 == 1;
    assert Dec(|f|) == Dec(1) + [DigitChar(|f| % 10)];
    assert d[0] == '2' && d[1] == '1';
  }

  /** X.25 addresses come back exactly while the length indicator is one digit. */
  lemma X25RoundTrip(a: NetAddr)
    requires a.X25Addr? && WellFormed(a)
    ensures DecodeX25(a.community, X25Head(a) + a.dte) == Some(Normal(a))
            <==> (a.pid == [] ==> |a.cudf| <= 9)
  {
    hide Pad, Val, Triples, ReadTriples, Dec, DecodeX25;
    var d := X25Head(a) + a.dte;
    if a.pid != [] {
      FieldShape('1', a.pid, a.dte);
      ShortFieldRead(a.community, d, a.pid, a.dte);
    } else if a.cudf == [] {
      NoFieldRead(a.community, a.dte);
    } else if |a.cudf| <= 9 {
      FieldShape('2', a.cudf, a.dte);
      ShortFieldRead(a.community, d, a.cudf, a.dte);
    } else {
      LongFieldMisread(a.community, a.cudf, a.dte);
    }
  }

  lemma NoFieldRead(subnet: int, dte: string)
    ensures DecodeX25(subnet, "0" + dte) == Some(X25Addr(subnet, dte, [], []))
  {
    assert ("0" + dte)[1..] == dte;
  }

  lemma PackAfi(d: string)
    ensures Pack("36" + d) == Join([0x36 as Octet], Pack(d))
  {
    assert Pack("36") == Some([0x36 as Octet]) by {
      assert "36"[2..] == "" && PairOctet('3', '6') == 0x36;
      assert Pack("") == Some([]);
      assert [0x36 as Octet] + [] == [0x36 as Octet];
    }
    PackConcat("36", d);
  }

  lemma X121Octets(table: seq<Community>, a: NetAddr)
    requires WellFormed(a) && X121Form(a) && Housed(table, a)
    ensures Na2Norm(table, a).Some?
    ensures var d := Rep('0', 14 - |a.dte|) + a.dte;
            Pack(d).Some? && Unpack(Pack(d).value) == Some(d)
            && Na2Norm(table, a).value == [0x36 as Octet] + Pack(d).value
  {
    hide Pick, Rep, Pack, Unpack, AllDigits, Own;
    var d := Rep('0', 14 - |a.dte|) + a.dte;
    RepDigits('0', 14 - |a.dte|);
    AllDigitsConcat(Rep('0', 14 - |a.dte|), a.dte);
    UnpackPack(d);
    assert "36" + Rep('0', 14 - |a.dte|) + a.dte == "36" + d;
    PackAfi(d);
    var b := [0x36 as Octet] + Pack(d).value;
    assert AddrDigits(a) == Some("36" + d);
    assert [] + b == b;
  }

  lemma X121RoundTrip(table: seq<Community>, a: NetAddr)
    requires WellFormed(a) && X121Form(a) && Housed(table, a)
    ensures Na2Norm(table, a).Some?
    ensures Norm2Na(table, Na2Norm(table, a).value) == Decoded(a) <==> 1 <= |a.dte| <= 14
  {
    hide DecodeAs, Pick, Pack, Unpack, Na2Norm, AllDigits, Rep, Strip;
    var d := Rep('0', 14 - |a.dte|) + a.dte;
    X121Octets(table, a);
    var p := Na2Norm(table, a).value;
    assert p[1..] == Pack(d).value;
    if |a.dte| <= 14 {
      StripPadded(14 - |a.dte|, a.dte);
    } else {
      assert d == a.dte;
      X121TooLong(table, a, p);
    }
  }

  lemma X121TooLong(table: seq<Community>, a: NetAddr, p: seq<Octet>)
    requires a.X25Addr? && |a.dte| > 14 && |p| > 8 && p[0] == 0x36 && Unpack(p[1..]) == Some(a.dte)
    ensures Norm2Na(table, p) != Decoded(a)
  {
    hide DecodeTcp, Pick, ReadTriples;
    var c := Pick(table, p);
    if c.Some? && c.value.syntax.X25? && Unpack(p[|c.value.prefix|..]).Some? {
      var n := |c.value.prefix|;
      if n == 0 {
        assert p[0..] == p;
        assert Unpack(p).value[0] == '3';
      } else {
        SuffixShorter(p[1..], n - 1);
        assert p[n..] == p[1..][n - 1..];
      }
    }
  }

  lemma {:induction false} StripPadded(n: nat, s: string)
    requires s == [] || s[0] != '0'
    ensures Strip(Some('0'), Rep('0', n) + s) == s
  {
    var t := Rep('0', n) + s;
    if n == 0 {
      assert t == s;
    } else {
      StripPadded(n - 1, s);
      assert t == "0" + (Rep('0', n - 1) + s);
      assert t[1..] == Rep('0', n - 1) + s;
    }
  }

  lemma {:induction false} SuffixShorter(b: seq<Octet>, k: nat)
    requires k <= |b| && Unpack(b).Some?
    ensures Unpack(b[k..]).Some? && |Unpack(b[k..]).value| + k <= |Unpack(b).value|
  {
    if k == 0 {
      assert b[k..] == b;
    } else {
      SuffixShorter(b[1..], k - 1);
      assert b[k..] == b[1..][k - 1..];
    }
  }

  // ---------------------------------------------------------------- addresses that fall back

  /** The digit loop succeeds exactly on decimal octets. */
  lemma {:induction false} UnpackDecimal(b: seq<Octet>)
    ensures Unpack(b) == if Decimal(b) then Some(DigitsOf(b)) else None
  {
    if b != [] {
      UnpackDecimal(b[1..]);
      assert Decimal(b) <==> UnpackOctet(b[0]).Some? && Decimal(b[1..]) by {
        assert forall i :: 1 <= i < |b| ==> b[i] == b[1..][i - 1];
      }
    }
  }

  lemma TcpFallsBack(subnet: int, d: string)
    ensures DecodeTcp(subnet, d).None? <==> NoTcp(d)
  {
    hide Val, Dotted;
  }

  lemma {:induction false} TriplesFail(d: string, k: nat, n: nat)
    requires k <= n && 2 + 3 * n <= |d|
    ensures ReadTriples(d[2 + 3 * k..], n - k).None? <==> exists i :: k <= i < n && BigTriple(d, i)
    decreases n - k
  {
    hide Val;
    if k < n {
      TriplesFail(d, k + 1, n);
      var s := d[2 + 3 * k..];
      assert s[..3] == d[2 + 3 * k..5 + 3 * k] && s[3..] == d[2 + 3 * (k + 1)..];
      assert BigTriple(d, k) <==> Val(s[..3]) > 255;
    }
  }

  lemma X25FallsBack(subnet: int, d: string)
    requires AllDigits(d)
    ensures DecodeX25(subnet, d).None? <==> NoX25(d)
  {
    hide ReadTriples, BigTriple;
    if |d| >= 2 && 2 + 3 * DigitVal(d[1]) <= |d| {
      TriplesFail(d, 0, DigitVal(d[1]));
    }
  }

  /** An NSAP address is read as one exactly when it is kept whole. */
  lemma NsapRoundTrip(table: seq<Community>, a: NetAddr)
    requires a.NsapAddr? && |a.address| <= NASIZE
    ensures Norm2Na(table, a.address) == Decoded(a) <==> KeptWhole(table, a)
  {
    hide Unpack, DecodeX25, DecodeTcp, NoX25, NoTcp, Decimal, DigitsOf, Pick, Strip;
    var p := a.address;
    if LooksX121(p) {
      UnpackDecimal(p[1..]);
    } else if Pick(table, p).Some? {
      var c := Pick(table, p).value;
      var b := p[|c.prefix|..];
      UnpackDecimal(b);
      if Decimal(b) {
        TcpFallsBack(c.subnet, DigitsOf(b));
        X25FallsBack(c.subnet, DigitsOf(b));
      }
    }
  }

  // ---------------------------------------------------------------- addresses led astray

  /** A longer prefix leaves fewer digits, which never make the same address. */
  lemma FewerDigitsDiffer(a: NetAddr, subnet: int, e: string)
    requires WellFormed(a) && !a.NsapAddr? && !X121Form(a) && |e| < |AddrDigits(a).value|
    ensures a.TcpAddr? ==> DecodeTcp(subnet, e) != Some(Normal(a))
    ensures a.X25Addr? ==> DecodeX25(subnet, e) != Some(Normal(a))
  {
    if a.TcpAddr? {
      hide Val, Dotted, Pad, LiteralHost;
    } else {
      hide Val, Dotted, ReadTriples, DecodeTcp, Dec, Pad;
      var x := DecodeX25(subnet, e);
      if x.Some? {
        ReencodesShort(subnet, e);
      }
    }
  }

  /** An X.25 address decoded from digits is encoded in no more of them. */
  lemma ReencodesShort(subnet: int, e: string)
    requires DecodeX25(subnet, e).Some?
    ensures var x := DecodeX25(subnet, e).value; |X25Head(x) + x.dte| <= |e|
  {
    hide Val, ReadTriples;
  }

  /** Through another community than its own an address does not come back. */
  lemma LedAstray(table: seq<Community>, a: NetAddr, p: seq<Octet>, d: string)
    requires WellFormed(a) && !a.NsapAddr? && !X121Form(a) && Housed(table, a) && AddrDigits(a) == Some(d)
    requires Pack(d).Some? && Unpack(Pack(d).value) == Some(d)
    requires p == Own(table, a.community).value.prefix + Pack(d).value
    requires Pick(table, p).Some? && !Alike(Pick(table, p).value, Own(table, a.community).value)
    ensures DecodeAs(Pick(table, p).value, p) != Decoded(Normal(a))
  {
    hide Unpack, Pack, AddrDigits, DecodeTcp, DecodeX25, LiteralHost, AllDigits, Dotted, X25Head, Normal, WellFormed;
    var c, own := Pick(table, p).value, Own(table, a.community).value;
    NormalKeeps(a);
    DigitsThere(a);
    OwnFits(table, a, p, Pack(d).value);
    if c.subnet == own.subnet && c.syntax == own.syntax {
      assert own.prefix == p[..|own.prefix|];
      var k := |c.prefix| - |own.prefix|;
      assert k == 0 ==> c.prefix == own.prefix;
      assert p[|c.prefix|..] == Pack(d).value[k..];
      SuffixShorter(Pack(d).value, k);
      FewerDigitsDiffer(a, c.subnet, Unpack(Pack(d).value[k..]).value);
    }
  }

  lemma NormalKeeps(a: NetAddr)
    ensures StackOf(Normal(a)) == StackOf(a) && Normal(a).community == a.community
  {
  }

  /** The own community of an address matches its encoding, so a longer one is chosen only. */
  lemma OwnFits(table: seq<Community>, a: NetAddr, p: seq<Octet>, b: seq<Octet>)
    requires Housed(table, a) && p == Own(table, a.community).value.prefix + b && b != []
    ensures Pick(table, p).Some? && |Pick(table, p).value.prefix| >= |Own(table, a.community).value.prefix|
  {
    var own := Own(table, a.community).value;
    assert own in table && Matches(own, p);
  }

  /** The codec law.  For every well-formed address and every table, decoding the encoding
      gives the normal form back if and only if Survives holds. */
  lemma RoundTrip(table: seq<Community>, a: NetAddr)
    requires Encodable(table, a)
    ensures Na2Norm(table, a).Some?
    ensures Norm2Na(table, Na2Norm(table, a).value) == Decoded(Normal(a)) <==> Survives(table, a)
  {
    if a.NsapAddr? {
      hide KeptWhole, Norm2Na;
      NsapRoundTrip(table, a);
    } else if X121Form(a) {
      EncodedFits(table, a);
      X121RoundTrip(table, a);
    } else {
      OrdinaryRoundTrip(table, a);
    }
  }

  lemma OrdinaryRoundTrip(table: seq<Community>, a: NetAddr)
    requires WellFormed(a) && !a.NsapAddr? && !X121Form(a) && Housed(table, a)
    ensures Na2Norm(table, a).Some?
    ensures Norm2Na(table, Na2Norm(table, a).value) == Decoded(Normal(a)) <==> Survives(table, a)
  {
    hide Unpack, Pack, DecodeTcp, DecodeX25, TcpDigits, X25Head, LiteralHost, Pick, AllDigits, Dotted, Own, Matches;
    EncodedFits(table, a);
    AddrDigitsOk(a);
    var own := Own(table, a.community).value;
    var p := Na2Norm(table, a).value;
    var d := AddrDigits(a).value;
    UnpackPack(d);
    assert p == own.prefix + Pack(d).value;
    assert p[|own.prefix|..] == Pack(d).value;
    DigitsThere(a);
    OwnFits(table, a, p, Pack(d).value);
    if LooksX121(p) {
      assert Norm2Na(table, p) == DecodeX121(p);
    } else if Alike(Pick(table, p).value, own) {
      if a.TcpAddr? {
        TcpRoundTrip(a.community, LiteralHost(a.domain).value, a.port, a.tset);
      } else {
        X25RoundTrip(a);
      }
    } else {
      LedAstray(table, a, p, d);
    }
  }

  lemma DigitsThere(a: NetAddr)
    requires WellFormed(a) && !a.NsapAddr? && !X121Form(a)
    ensures AddrDigits(a).Some? && AddrDigits(a).value != []
  {
    hide Dec, Pad, Triples, LiteralHost;
  }

  /** No two addresses that survive share an encoding, beyond what Normal removes. */
  lemma EncodingInjective(table: seq<Community>, a: NetAddr, b: NetAddr)
    requires Encodable(table, a) && Survives(table, a) && Encodable(table, b) && Survives(table, b)
    requires Na2Norm(table, a) == Na2Norm(table, b)
    ensures Normal(a) == Normal(b)
  {
    hide *;
    RoundTrip(table, a);
    RoundTrip(table, b);
  }

  /** A CUDF of ten octets or more, in any X.25 community, is one the encoder accepts and the
      decoder misreads. */
  lemma LongCudfLost(table: seq<Community>, a: NetAddr)
    requires WellFormed(a) && a.X25Addr? && Housed(table, a) && a.pid == [] && |a.cudf| >= 10
    ensures Na2Norm(table, a).Some? && Norm2Na(table, Na2Norm(table, a).value) != Decoded(a)
  {
    RoundTrip(table, a);
  }

  /** The prefix of a community that houses TCP or X.25 addresses starts no other prefix,
      except of entries that decode alike, and could not be taken for the X.121 form. */
  ghost predicate PrefixFree(table: seq<Community>) {
    forall c :: c in table && !c.syntax.NSAP? ==> StandsApart(table, c)
  }

  ghost predicate StandsApart(table: seq<Community>, c: Community) {
    && c.prefix != [] && c.prefix[0] != 0x36 && c.prefix[0] != 0x37
    && forall d :: d in table && c.prefix <= d.prefix ==> Alike(c, d)
  }

  /** With such a table every well-formed TCP address survives, and every X.25 address whose
      CUDF is not too long or whose X.121 form has 1 to 14 digits. */
  lemma PrefixFreeSurvives(table: seq<Community>, a: NetAddr)
    requires PrefixFree(table) && WellFormed(a) && !a.NsapAddr? && Housed(table, a)
    ensures Survives(table, a) <==> if X121Form(a) then 1 <= |a.dte| <= 14
                                    else a.X25Addr? && a.pid == [] ==> |a.cudf| <= 9
  {
    hide Unpack, Pack, TcpDigits, X25Head, LiteralHost, Pick, AllDigits, Dotted, Own;
    EncodedFits(table, a);
    if !X121Form(a) {
      AddrDigitsOk(a);
      DigitsThere(a);
      var own := Own(table, a.community).value;
      var p := Na2Norm(table, a).value;
      var b := Pack(AddrDigits(a).value).value;
      UnpackPack(AddrDigits(a).value);
      assert p == own.prefix + b;
      OwnFits(table, a, p, b);
      assert own in table && StandsApart(table, own);
      assert own.prefix <= Pick(table, p).value.prefix;
    }
  }
}
