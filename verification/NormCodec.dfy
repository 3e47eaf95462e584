/** The binary address codec: na2norm (compat/na2norm.c) packs a TCP or X.25 address as
    decimal digits behind its community's prefix, norm2na (compat/norm2na.c) finds the
    community by longest prefix and unpacks the digits.  The encoding is S.E. Kille's
    "An interim approach to use of Network Addresses", published as RFC 1277. */
module NormCodec {
  import opened Options
  import opened Digits
  import opened Addresses

  /** What norm2na does: an address, NOTOK, or a read or write outside its buffers. */
  datatype Decoded = Decoded(addr: NetAddr) | Refused | Overrun

  // ---------------------------------------------------------------- na2norm

  /** sprintf "%03d" of each octet. */
  function Triples(b: seq<Octet>): (s: string)
    ensures |s| == 3 * |b|
  {
    if b == [] then [] else Pad(b[0], 3) + Triples(b[1..])
  }

  function X25Head(a: NetAddr): string
    requires a.X25Addr?
  {
    if a.pid != [] then "1" + Dec(|a.pid|) + Triples(a.pid)
    else if a.cudf != [] then "2" + Dec(|a.cudf|) + Triples(a.cudf)
    else "0"
  }

  function TcpDigits(q: Quad, port: nat, tset: nat): (s: string)
    ensures |s| == 12 || |s| == 17 || |s| == 22
  {
    Pad(q[0], 3) + Pad(q[1], 3) + Pad(q[2], 3) + Pad(q[3], 3)
    + (if port == 0 then ""
       else Pad(port, 5) + (if tset != 0 && tset != NA_TSET_TCP then Pad(tset, 5) else ""))
  }

  /** The digit string na2norm builds; None when the host is unknown. */
  function AddrDigits(a: NetAddr): Option<string>
    requires !a.NsapAddr?
  {
    match a
    case TcpAddr(_, domain, port, tset) =>
      var q := LiteralHost(domain);
      if q.None? then None else Some(TcpDigits(q.value, port, tset))
    case X25Addr(_, dte, _, _) =>
      if X121Form(a) then Some("36" + Rep('0', 14 - |dte|) + dte) else Some(X25Head(a) + dte)
  }

  /** na2norm: the octets of the normalised address; None is NULLNA. */
  function Na2Norm(table: seq<Community>, a: NetAddr): Option<seq<Octet>> {
    if a.NsapAddr? then Some(a.address)
    else
      var own := Own(table, a.community);
      if own.None? then None
      else
        var digits := AddrDigits(a);
        if digits.None? then None
        else
          var packed := Pack(digits.value);
          if packed.None? then None
          else
            var b := (if X121Form(a) then [] else own.value.prefix) + packed.value;
            if |b| > 127 then None else Some(b)
  }

  /** What the caller may pass: in-range numbers, digits in the DTE, fields that fit. */
  ghost predicate WellFormed(a: NetAddr) {
    match a
    case NsapAddr(_, address) => |address| <= NASIZE
    case TcpAddr(_, domain, port, tset) =>
      LiteralHost(domain).Some? && domain == Dotted(LiteralHost(domain).value)
      && port < 65536 && tset < 65536
    case X25Addr(_, dte, pid, cudf) =>
      AllDigits(dte) && |dte| <= NSAP_DTELEN && |pid| <= NPSIZE && |cudf| <= CUDFSIZE
  }

  /** The address with everything the encoding does not carry removed: the default tset,
      a tset without a port, and the CUDF beside a PID. */
  function Normal(a: NetAddr): NetAddr {
    match a
    case NsapAddr(_, _) => a
    case TcpAddr(_, _, port, tset) => a.(tset := if port == 0 || tset == NA_TSET_TCP then 0 else tset)
    case X25Addr(_, _, pid, _) => a.(cudf := if pid != [] then [] else a.cudf)
  }

  /** The table gives this address a community of its own syntax. */
  ghost predicate Housed(table: seq<Community>, a: NetAddr) {
    Own(table, a.community).Some?
    && Own(table, a.community).value.syntax == StackOf(a)
    && |Own(table, a.community).value.prefix| <= PREFIXSIZE
  }

  /** The addresses na2norm is for. */
  ghost predicate Encodable(table: seq<Community>, a: NetAddr) {
    WellFormed(a) && (a.NsapAddr? || Housed(table, a))
  }

  lemma {:induction false} TriplesDigits(b: seq<Octet>)
    ensures AllDigits(Triples(b))
  {
    if b != [] {
      PadDigits(b[0], 3);
      TriplesDigits(b[1..]);
    }
  }

  lemma FieldDigitsOk(mark: char, f: seq<Octet>)
    requires IsDigit(mark) && |f| <= CUDFSIZE
    ensures AllDigits([mark] + Dec(|f|) + Triples(f))
    ensures |Dec(|f|)| == if |f| <= 9 then 1 else 2
  {
    assert |f| > 9 ==> |f| / 10 == 1 && Dec(|f|) == Dec(1) + [DigitChar(|f| % 10)];
    hide Triples, Dec, Pad;
    DecDigits(|f|);
    TriplesDigits(f);
    AllDigitsConcat([mark], Dec(|f|));
    AllDigitsConcat([mark] + Dec(|f|), Triples(f));
  }

  lemma TcpDigitsOk(q: Quad, port: nat, tset: nat)
    ensures AllDigits(TcpDigits(q, port, tset))
  {
    hide Pad;
    PadDigits(q[0], 3);
    PadDigits(q[1], 3);
    PadDigits(q[2], 3);
    PadDigits(q[3], 3);
    PadDigits(port, 5);
    PadDigits(tset, 5);
  }

  /** The digit string of a well-formed address: all digits, at most 87 of them. */
  lemma AddrDigitsOk(a: NetAddr)
    requires WellFormed(a) && !a.NsapAddr?
    ensures AddrDigits(a).Some? && AllDigits(AddrDigits(a).value) && |AddrDigits(a).value| <= 87
  {
    hide Pad, Dec, Triples, Rep, LiteralHost, TcpDigits;
    if a.TcpAddr? {
      TcpDigitsOk(LiteralHost(a.domain).value, a.port, a.tset);
    } else if X121Form(a) {
      RepDigits('0', 14 - |a.dte|);
      AllDigitsConcat("36", Rep('0', 14 - |a.dte|));
      AllDigitsConcat("36" + Rep('0', 14 - |a.dte|), a.dte);
    } else {
      FieldDigitsOk('1', a.pid);
      FieldDigitsOk('2', a.cudf);
      AllDigitsConcat(X25Head(a), a.dte);
    }
  }

  /** Every well-formed address is encoded, and the result fits na_address. */
  lemma EncodedFits(table: seq<Community>, a: NetAddr)
    requires Encodable(table, a)
    ensures Na2Norm(table, a).Some? && |Na2Norm(table, a).value| <= NASIZE
  {
    hide LiteralHost, Pack, AddrDigits, Own;
    if !a.NsapAddr? {
      AddrDigitsOk(a);
      UnpackPack(AddrDigits(a).value);
    }
  }

  // ---------------------------------------------------------------- norm2na

  predicate Matches(c: Community, p: seq<Octet>) {
    |c.prefix| < |p| && c.prefix == p[..|c.prefix|]
  }

  /** The scan for the community: the longest matching prefix, the earlier entry on a tie. */
  function Pick(table: seq<Community>, p: seq<Octet>): (r: Option<Community>)
    ensures r.Some? ==> r.value in table && Matches(r.value, p)
    ensures forall c :: c in table && Matches(c, p) ==> r.Some? && |c.prefix| <= |r.value.prefix|
  {
    if table == [] then None
    else
      var n := |table| - 1;
      var best := Pick(table[..n], p);
      assert forall c :: c in table ==> c == table[n] || c in table[..n];
      if Matches(table[n], p) && (best.None? || |table[n].prefix| > |best.value.prefix|)
      then Some(table[n]) else best
  }

  predicate LooksX121(p: seq<Octet>) {
    |p| == 8 && (p[0] == 0x36 || p[0] == 0x37)
  }

  function ReadTriples(s: string, n: nat): (r: Option<seq<Octet>>)
    requires 3 * n <= |s|
    ensures r.Some? ==> |r.value| == n
  {
    if n == 0 then Some([])
    else if Val(s[..3]) > 255 then None
    else
      var rest := ReadTriples(s[3..], n - 1);
      if rest.None? then None else Some([Val(s[..3])] + rest.value)
  }

  /** The NA_X25 case; None stands for falling back to a real NSAP. */
  function DecodeX25(subnet: int, d: string): (r: Option<NetAddr>)
    ensures r.Some? ==> r.value.X25Addr? && r.value.community == subnet && |r.value.dte| < |d|
  {
    if d == [] then None
    else if d[0] == '0' then Some(X25Addr(subnet, d[1..], [], []))
    else if d[0] != '1' && d[0] != '2' then None
    else if |d| < 2 then None
    else
      var ilen := DigitVal(d[1]);
      var body := d[2..];
      if |body| < 3 * ilen then None
      else if d[0] == '1' && ilen > NPSIZE then None
      else
        var field := ReadTriples(body, ilen);
        if field.None? then None
        else if d[0] == '1' then Some(X25Addr(subnet, body[3 * ilen..], field.value, []))
        else Some(X25Addr(subnet, body[3 * ilen..], [], field.value))
  }

  /** The NA_TCP case; None stands for falling back to a real NSAP. */
  function DecodeTcp(subnet: int, d: string): (r: Option<NetAddr>)
    ensures r.Some? ==> r.value.TcpAddr? && r.value.community == subnet
  {
    if |d| < 12 then None
    else
      var domain := Dotted([Val(d[0..3]), Val(d[3..6]), Val(d[6..9]), Val(d[9..12])]);
      if |d| == 12 then Some(TcpAddr(subnet, domain, 0, 0))
      else if |d| < 17 then None
      else
        var port := Val(d[12..17]) % 65536;
        if |d| == 17 then Some(TcpAddr(subnet, domain, port, 0))
        else if |d| < 22 then None
        else Some(TcpAddr(subnet, domain, port, Val(d[17..22]) % 65536))
  }

  function RealNs(subnet: int, p: seq<Octet>): Decoded {
    if |p| > NASIZE then Refused else Decoded(NsapAddr(subnet, p))
  }

  function DecodeX121(p: seq<Octet>): Decoded
    requires LooksX121(p)
  {
    var d := Unpack(p[1..]);
    if d.None? then RealNs(SUBNET_REALNS, p)
    else if |d.value| < 14 || Strip(Some('0'), d.value) == [] then Overrun
    else Decoded(X25Addr(SUBNET_INT_X25, Strip(Some('0'), d.value), [], []))
  }

  function DecodeAs(c: Community, p: seq<Octet>): Decoded
    requires Matches(c, p)
  {
    if c.syntax.NSAP? then RealNs(c.subnet, p)
    else if |p| - |c.prefix| > NASIZE then Overrun
    else
      var d := Unpack(p[|c.prefix|..]);
      if d.None? then RealNs(SUBNET_REALNS, p)
      else
        var a := if c.syntax.X25? then DecodeX25(c.subnet, d.value) else DecodeTcp(c.subnet, d.value);
        if a.None? then RealNs(SUBNET_REALNS, p)
        else if a.value.X25Addr? && |a.value.dte| > NSAP_DTELEN then Overrun
        else Decoded(a.value)
  }

  function Norm2Na(table: seq<Community>, p: seq<Octet>): Decoded {
    if LooksX121(p) then DecodeX121(p)
    else
      var c := Pick(table, p);
      if c.None? then RealNs(SUBNET_REALNS, p) else DecodeAs(c.value, p)
  }

  // ---------------------------------------------------------------- the loops

  lemma {:induction false} TriplesConcat(a: seq<Octet>, o: Octet)
    ensures Triples(a + [o]) == Triples(a) + Pad(o, 3)
  {
    if a == [] {
      assert a + [o] == [o];
      assert Triples([o]) == Pad(o, 3) + Triples([]);
    } else {
      TriplesConcat(a[1..], o);
      assert (a + [o])[1..] == a[1..] + [o];
    }
  }

  /** The PID or CUDF part of na2norm's digit string. */
  method FieldDigits(na: NetAddr) returns (nsap: string)
    requires na.X25Addr?
    ensures nsap == X25Head(na)
  {
    hide Pad, Dec;
    var field := if na.pid != [] then na.pid else na.cudf;
    nsap := if na.pid != [] then "1" else if na.cudf != [] then "2" else "0";
    if field != [] {
      nsap := nsap + Dec(|field|);
      ghost var head := nsap;
      var i := 0;
      while i < |field|
        invariant 0 <= i <= |field|
        invariant nsap == head + Triples(field[..i])
      {
        TriplesConcat(field[..i], field[i]);
        assert field[..i + 1] == field[..i] + [field[i]];
        nsap := nsap + Pad(field[i], 3);
        i := i + 1;
      }
      assert field[..i] == field;
    }
  }

  /** The NA_TCP part of na2norm's digit string. */
  method TcpString(q: Quad, port: nat, tset: nat) returns (nsap: string)
    ensures nsap == TcpDigits(q, port, tset)
  {
    hide Pad;
    nsap := Pad(q[0], 3) + Pad(q[1], 3) + Pad(q[2], 3) + Pad(q[3], 3);
    if port != 0 {
      nsap := nsap + Pad(port, 5);
      if tset != 0 && tset != NA_TSET_TCP {
        nsap := nsap + Pad(tset, 5);
      }
    }
  }

  /** na2norm's search for the community of a subnet. */
  method FindOwn(table: seq<Community>, subnet: int) returns (r: Option<Community>)
    ensures r == Own(table, subnet)
  {
    var k := 0;
    assert table[0..] == table;
    while k < |table| && table[k].subnet != subnet
      invariant 0 <= k <= |table|
      invariant Own(table, subnet) == Own(table[k..], subnet)
    {
      assert table[k..][1..] == table[k + 1..];
      k := k + 1;
    }
    r := if k == |table| then None else Some(table[k]);
  }

  /** na2norm. */
  method EncodeAddress(table: seq<Community>, na: NetAddr) returns (r: Option<seq<Octet>>)
    ensures r == Na2Norm(table, na)
  {
    hide Dec, Pack, LiteralHost, X25Head, TcpDigits, Rep, Own;
    if na.NsapAddr? {
      return Some(na.address);
    }
    var own := FindOwn(table, na.community);
    if own.None? {
      return None;
    }
    var prefix := own.value.prefix;
    var nsap;
    if na.TcpAddr? {
      var hp := LiteralHost(na.domain);
      if hp.None? {
        return None;
      }
      nsap := TcpString(hp.value, na.port, na.tset);
    } else if na.community == SUBNET_INT_X25 && na.cudf == [] && na.pid == []
              && (na.dte == [] || na.dte[0] != '0') {
      nsap := "36" + Rep('0', 14 - |na.dte|) + na.dte;
      prefix := [];
    } else {
      nsap := FieldDigits(na);
      nsap := nsap + na.dte;
    }
    var packed := PackLoop(nsap);
    if packed.None? || |prefix + packed.value| > 127 {
      return None;
    }
    r := Some(prefix + packed.value);
  }

  /** The digit loop of norm2na. */
  method UnpackLoop(p: seq<Octet>) returns (r: Option<string>)
    ensures r == Unpack(p)
  {
    var d := "";
    var i := 0;
    assert p[0..] == p;
    JoinEmpty(Unpack(p));
    while i < |p|
      invariant 0 <= i <= |p|
      invariant Unpack(p) == Join(d, Unpack(p[i..]))
    {
      assert p[i..][1..] == p[i + 1..];
      ghost var was := d;
      var j := p[i] / 16;
      if j > 9 {
        return None;
      }
      d := d + [DigitChar(j)];
      j := p[i] % 16;
      if j > 9 {
        if j != 15 {
          return None;
        }
      } else {
        d := d + [DigitChar(j)];
      }
      assert d == was + UnpackOctet(p[i]).value;
      JoinAssoc(was, UnpackOctet(p[i]).value, Unpack(p[i + 1..]));
      i := i + 1;
    }
    assert d + [] == d;
    r := Some(d);
  }

  /** The loop over the PID or CUDF octets. */
  method TripleLoop(body: string, n: nat) returns (r: Option<seq<Octet>>)
    requires 3 * n <= |body|
    ensures r == ReadTriples(body, n)
  {
    hide Val;
    var field: seq<Octet> := [];
    var k := 0;
    assert body[0..] == body;
    JoinEmpty(ReadTriples(body, n));
    while k < n
      invariant 0 <= k <= n
      invariant ReadTriples(body, n) == Join(field, ReadTriples(body[3 * k..], n - k))
    {
      var at := body[3 * k..];
      var v := Val(at[..3]);
      if v > 255 {
        return None;
      }
      assert at[3..] == body[3 * (k + 1)..];
      JoinAssoc(field, [v as Octet], ReadTriples(at[3..], n - k - 1));
      field := field + [v];
      k := k + 1;
    }
    assert field + [] == field;
    r := Some(field);
  }

  /** The NA_X25 case of norm2na. */
  method ReadX25(subnet: int, d: string) returns (r: Option<NetAddr>)
    ensures r == DecodeX25(subnet, d)
  {
    if d == [] {
      return None;
    }
    var i := d[0];
    if i == '0' {
      return Some(X25Addr(subnet, d[1..], [], []));
    }
    if (i != '1' && i != '2') || |d| < 2 {
      return None;
    }
    var ilen := DigitVal(d[1]);
    var body := d[2..];
    if |body| < 3 * ilen || (i == '1' && ilen > NPSIZE) {
      return None;
    }
    var field := TripleLoop(body, ilen);
    if field.None? {
      return None;
    }
    r := Some(if i == '1' then X25Addr(subnet, body[3 * ilen..], field.value, [])
              else X25Addr(subnet, body[3 * ilen..], [], field.value));
  }

  /** norm2na's X.121 form, with the loop that drops the leading zeros. */
  method ReadX121(p: seq<Octet>) returns (r: Decoded)
    requires LooksX121(p)
    ensures r == DecodeX121(p)
  {
    hide Unpack, AllDigits;
    var d := UnpackLoop(p[1..]);
    if d.None? {
      return RealNs(SUBNET_REALNS, p);
    }
    var cp := 0;
    assert d.value[0..] == d.value;
    while cp < |d.value| && d.value[cp] == '0'
      invariant 0 <= cp <= |d.value|
      invariant Strip(Some('0'), d.value) == Strip(Some('0'), d.value[cp..])
    {
      assert d.value[cp..][1..] == d.value[cp + 1..];
      cp := cp + 1;
    }
    if |d.value| < 14 || cp == |d.value| {
      return Overrun;
    }
    r := Decoded(X25Addr(SUBNET_INT_X25, d.value[cp..], [], []));
  }

  /** norm2na's scan of the community table. */
  method ScanTable(table: seq<Community>, p: seq<Octet>) returns (tp: Option<Community>)
    ensures tp == Pick(table, p)
  {
    tp := None;
    for k := 0 to |table|
      invariant tp == Pick(table[..k], p)
    {
      assert table[..k + 1][..k] == table[..k];
      if |p| > |table[k].prefix| && (tp.None? || |table[k].prefix| > |tp.value.prefix|)
         && p[..|table[k].prefix|] == table[k].prefix {
        tp := Some(table[k]);
      }
    }
    assert table[..|table|] == table;
  }

  /** norm2na. */
  method DecodeAddress(table: seq<Community>, p: seq<Octet>) returns (r: Decoded)
    ensures r == Norm2Na(table, p)
  {
    hide Unpack, DecodeX25, DecodeTcp, AllDigits, Val, Dec, Pick, DecodeX121;
    if |p| == 8 && (p[0] == 0x36 || p[0] == 0x37) {
      r := ReadX121(p);
      return;
    }
    var tp := ScanTable(table, p);
    if tp.None? {
      return RealNs(SUBNET_REALNS, p);
    }
    var c := tp.value;
    if c.syntax.NSAP? {
      return RealNs(c.subnet, p);
    }
    if |p| - |c.prefix| > NASIZE {
      return Overrun;
    }
    var d := UnpackLoop(p[|c.prefix|..]);
    if d.None? {
      return RealNs(SUBNET_REALNS, p);
    }
    var a;
    if c.syntax.X25? {
      a := ReadX25(c.subnet, d.value);
    } else {
      a := DecodeTcp(c.subnet, d.value);
    }
    if a.None? {
      return RealNs(SUBNET_REALNS, p);
    }
    if a.value.X25Addr? && |a.value.dte| > NSAP_DTELEN {
      return Overrun;
    }
    r := Decoded(a.value);
  }
}
