/** The octets of network addresses, nibble by nibble (RFC 1277, section 4): what na2norm
    writes and what norm2na reads, each told without the other. */
module OctetForms {
  import opened Options
  import opened Digits
  import opened Addresses
  import opened NsapText
  import opened NormCodec
  import opened NormRoundTrip

  // ---------------------------------------------------------------- what is written

  /** The nibbles of an encoding are those of the prefix, the digits, and a pad. */
  ghost predicate Written(table: seq<Community>, a: NetAddr, prefix: seq<Octet>, digits: string) {
    Na2Norm(table, a).Some?
    && Explode(Na2Norm(table, a).value) == Explode(prefix) + digits + if |digits| % 2 == 1 then "f" else ""
  }

  lemma DigitsWritten(table: seq<Community>, a: NetAddr)
    requires Encodable(table, a) && !a.NsapAddr? && AddrDigits(a).Some?
    ensures Written(table, a, if X121Form(a) then [] else Own(table, a.community).value.prefix, AddrDigits(a).value)
  {
    hide *;
    var d := AddrDigits(a).value;
    EncodableWell(table, a);
    var prefix := if X121Form(a) then [] else Own(table, a.community).value.prefix;
    AddrDigitsOk(a);
    ExplodePack(d);
    PrefixedDigits(table, a);
    ExplodeConcat(prefix, Pack(d).value);
    assert Explode(prefix) + (d + Trail(d)) == Explode(prefix) + d + Trail(d);
    NibblesWritten(table, a, prefix, d);
  }

  lemma EncodableWell(table: seq<Community>, a: NetAddr)
    requires Encodable(table, a) && !a.NsapAddr?
    ensures WellFormed(a) && Own(table, a.community).Some?
  {
  }

  lemma NibblesWritten(table: seq<Community>, a: NetAddr, prefix: seq<Octet>, d: string)
    ensures Na2Norm(table, a).Some? && Explode(Na2Norm(table, a).value) == Explode(prefix) + d + Trail(d)
            ==> Written(table, a, prefix, d)
  {
    hide Na2Norm, Explode;
  }

  lemma PrefixedDigits(table: seq<Community>, a: NetAddr)
    requires Encodable(table, a) && !a.NsapAddr? && AddrDigits(a).Some? && Pack(AddrDigits(a).value).Some?
    ensures Na2Norm(table, a)
         == Some((if X121Form(a) then [] else Own(table, a.community).value.prefix) + Pack(AddrDigits(a).value).value)
  {
    EncodedFits(table, a);
    hide Pack, AddrDigits, Own;
  }

  /** An international X.25 address without PID and CUDF: AFI 36 and fourteen digits, with
      zeros in front. */
  lemma X121Written(table: seq<Community>, a: NetAddr)
    requires Encodable(table, a) && X121Form(a) && |a.dte| <= 14
    ensures Written(table, a, [], "36" + seq(14 - |a.dte|, _ => '0') + a.dte)
  {
    DigitsWritten(table, a);
    RepSeq('0', 14 - |a.dte|);
    hide Na2Norm, Explode, Rep;
  }

  lemma {:induction false} RepSeq(c: char, n: nat)
    ensures Rep(c, n) == seq(n, _ => c)
  {
    if n > 0 {
      RepSeq(c, n - 1);
      assert [c] + seq(n - 1, _ => c) == seq(n, _ => c);
    }
  }

  lemma FieldAt(s: string, t: string, u: string)
    ensures (s + t + u)[|s|..|s| + |t|] == t
  {
  }

  /** A TCP address: three digits for each octet of the host, then five for the port unless it
      is zero, then five for the transport set unless it is zero or the default. */
  lemma TcpWritten(table: seq<Community>, a: NetAddr, q: Quad) returns (d: string)
    requires Encodable(table, a) && a.TcpAddr? && a.domain == Dotted(q)
    ensures Written(table, a, Own(table, a.community).value.prefix, d)
    ensures |d| == if a.port == 0 then 12 else if a.tset == 0 || a.tset == NA_TSET_TCP then 17 else 22
    ensures forall i :: 0 <= i < 4 ==> Val(d[3 * i..3 * i + 3]) == q[i]
    ensures |d| >= 17 ==> Val(d[12..17]) == a.port
    ensures |d| == 22 ==> Val(d[17..22]) == a.tset
  {
    AddrDigitsOk(a);
    DigitsWritten(table, a);
    LiteralDotted(q);
    d := AddrDigits(a).value;
    TcpFields(q, a.port, a.tset);
    hide Written, Val, TcpDigits, LiteralHost;
  }

  lemma TcpFields(q: Quad, port: nat, tset: nat)
    requires port < 65536 && tset < 65536
    ensures var d := TcpDigits(q, port, tset);
            && (forall i :: 0 <= i < 4 ==> Val(d[3 * i..3 * i + 3]) == q[i])
            && (port != 0 ==> |d| >= 17 && Val(d[12..17]) == port)
            && (port != 0 && tset != 0 && tset != NA_TSET_TCP ==> |d| == 22 && Val(d[17..22]) == tset)
  {
    hide Pad, Val;
    ValPad(q[0], 3);
    ValPad(q[1], 3);
    ValPad(q[2], 3);
    ValPad(q[3], 3);
    assert Pow10(5) == 100000;
    ValPad(port, 5);
    ValPad(tset, 5);
    var d := TcpDigits(q, port, tset);
    assert d[0..3] == Pad(q[0], 3) && d[3..6] == Pad(q[1], 3) && d[6..9] == Pad(q[2], 3) && d[9..12] == Pad(q[3], 3);
    assert port != 0 ==> d[12..17] == Pad(port, 5);
    assert port != 0 && tset != 0 && tset != NA_TSET_TCP ==> d[17..22] == Pad(tset, 5);
  }

  /** The field of an X.25 address that is written: the PID, or else the CUDF. */
  function Field(a: NetAddr): seq<Octet>
    requires a.X25Addr?
  {
    if a.pid != [] then a.pid else a.cudf
  }

  /** Any other X.25 address: an indicator, 1 for a PID, 2 for a CUDF and 0 for neither; with
      a field its length and three digits for each of its octets; and the DTE. */
  lemma X25Written(table: seq<Community>, a: NetAddr) returns (d: string)
    requires Encodable(table, a) && a.X25Addr? && !X121Form(a)
    ensures Written(table, a, Own(table, a.community).value.prefix, d)
    ensures var f := Field(a);
            var at := if f == [] then 1 else if |f| <= 9 then 2 else 3;
            && |d| == at + 3 * |f| + |a.dte| && d[at + 3 * |f|..] == a.dte
            && d[0] == (if a.pid != [] then '1' else if a.cudf != [] then '2' else '0')
            && (f != [] ==> Val(d[1..at]) == |f|)
            && forall i :: 0 <= i < |f| ==> Val(d[at + 3 * i..at + 3 * i + 3]) == f[i]
  {
    hide Written, Val, X25Head, Own, Na2Norm, AllDigits;
    AddrDigitsOk(a);
    DigitsWritten(table, a);
    d := AddrDigits(a).value;
    var f := Field(a);
    HeadFields(a);
    var h := X25Head(a);
    assert d == h + a.dte;
    hide AddrDigits;
    var at := if f == [] then 1 else if |f| <= 9 then 2 else 3;
    assert d[1..at] == h[1..at];
    forall i | 0 <= i < |f|
      ensures Val(d[at + 3 * i..at + 3 * i + 3]) == f[i]
    {
      assert d[at + 3 * i..at + 3 * i + 3] == h[at + 3 * i..at + 3 * i + 3];
    }
  }

  lemma HeadFields(a: NetAddr)
    requires a.X25Addr? && |a.pid| <= NPSIZE && |a.cudf| <= CUDFSIZE
    ensures var f, h := Field(a), X25Head(a);
            var at := if f == [] then 1 else if |f| <= 9 then 2 else 3;
            && |h| == at + 3 * |f|
            && h[0] == (if a.pid != [] then '1' else if a.cudf != [] then '2' else '0')
            && (f != [] ==> Val(h[1..at]) == |f|)
            && forall i :: 0 <= i < |f| ==> Val(h[at + 3 * i..at + 3 * i + 3]) == f[i]
  {
    var f, h := Field(a), X25Head(a);
    if f != [] {
      FieldDigitsOk('1', f);
      ValDec(|f|);
      hide Triples, Val, Dec;
      var at := 1 + |Dec(|f|)|;
      assert h == [h[0]] + Dec(|f|) + Triples(f);
      assert h[1..at] == Dec(|f|);
      forall i | 0 <= i < |f|
        ensures Val(h[at + 3 * i..at + 3 * i + 3]) == f[i]
      {
        TripleAt(f, i);
        assert h[at + 3 * i..at + 3 * i + 3] == Triples(f)[3 * i..3 * i + 3];
      }
    }
  }

  lemma {:induction false} TripleAt(b: seq<Octet>, i: nat)
    requires i < |b|
    ensures Val(Triples(b)[3 * i..3 * i + 3]) == b[i]
  {
    hide Pad, Val;
    var t := Triples(b);
    if i == 0 {
      ValPad(b[0], 3);
      assert t[0..3] == Pad(b[0], 3);
    } else {
      TripleAt(b[1..], i - 1);
      assert t[3 * i..3 * i + 3] == Triples(b[1..])[3 * (i - 1)..3 * (i - 1) + 3];
    }
  }

  // ---------------------------------------------------------------- what is read

  /** Eight octets with AFI 36 or 37 and fourteen digits are the international X.25 address
      of the digits without their leading zeros, in every table. */
  lemma X121Read(table: seq<Community>, afi: Octet, dte: string)
    requires afi == 0x36 || afi == 0x37
    requires AllDigits(dte) && 1 <= |dte| <= 14 && dte[0] != '0'
    ensures Pack(seq(14 - |dte|, _ => '0') + dte).Some?
    ensures Norm2Na(table, [afi] + Pack(seq(14 - |dte|, _ => '0') + dte).value)
         == Decoded(X25Addr(SUBNET_INT_X25, dte, [], []))
  {
    hide Pack, Unpack, Strip, Rep, Pick, DecodeAs;
    var s := seq(14 - |dte|, _ => '0') + dte;
    RepSeq('0', 14 - |dte|);
    PackSize(s);
    StripPadded(14 - |dte|, dte);
    UnpackPack(s);
    hide AllDigits;
    var p := [afi] + Pack(s).value;
    assert p[1..] == Pack(s).value;
  }

  lemma {:induction false} PackSize(s: string)
    requires AllDigits(s)
    ensures Pack(s).Some? && |Pack(s).value| == (|s| + 1) / 2
  {
    if |s| >= 2 {
      PackSize(s[2..]);
    }
  }

  /** Nothing else is an international X.25 address, but behind the prefix of an X.25
      community with that subnet. */
  lemma IntX25Only(table: seq<Community>, p: seq<Octet>)
    requires Norm2Na(table, p).Decoded? && Norm2Na(table, p).addr.X25Addr?
    requires Norm2Na(table, p).addr.community == SUBNET_INT_X25
    ensures (|p| == 8 && (p[0] == 0x36 || p[0] == 0x37))
            || exists c :: c in table && c.syntax == X25 && c.subnet == SUBNET_INT_X25 && c.prefix <= p
  {
    hide DecodeX25, DecodeTcp, DecodeX121, Unpack;
    if !LooksX121(p) {
      var c := Pick(table, p).value;
      assert c in table && c.prefix <= p;
    }
  }

  /** Behind the prefix of a TCP community: the host, and the port and transport set that
      there are digits for, in sixteen bits. */
  lemma TcpRead(table: seq<Community>, c: Community, d: string)
    requires c.syntax == TCP && AllDigits(d) && (|d| == 12 || |d| == 17 || 22 <= |d| <= 2 * NASIZE)
    requires var b := Pack(d); b.Some? && !LooksX121(c.prefix + b.value) && Pick(table, c.prefix + b.value) == Some(c)
    ensures Norm2Na(table, c.prefix + Pack(d).value)
         == Decoded(TcpAddr(c.subnet, Dotted([Val(d[0..3]), Val(d[3..6]), Val(d[6..9]), Val(d[9..12])]),
                            if |d| == 12 then 0 else Val(d[12..17]) % 0x1_0000,
                            if |d| < 22 then 0 else Val(d[17..22]) % 0x1_0000))
  {
    UnpackPack(d);
    PackSize(d);
    hide Pack, Unpack, Val, Dotted, Pick, AllDigits, LooksX121;
    var p := c.prefix + Pack(d).value;
    assert p[|c.prefix|..] == Pack(d).value;
  }
}
