/** What a community's macro value says, macro2comm in compat/isoaddrs.c, and the table of
    communities that isodexport makes of such values, in compat/isotailor.c. */
module Tailoring {
  import opened Options
  import opened Digits
  import opened Addresses
  import opened Macros
  import opened NsapText
  import C = NormCodec
  import T = NormRoundTrip

  /** ts_syntax, ts_prefix, and ts_subnet where macro2comm overrides it. */
  datatype Made = Made(syntax: Stack, subnet: Option<int>, prefix: seq<Octet>)

  function PrefixOf(syntax: Stack, subnet: Option<int>, b: Option<seq<Octet>>): Option<Made> {
    if b.None? || |b.value| > PREFIXSIZE then None else Some(Made(syntax, subnet, b.value))
  }

  predicate Direct(dsp: string) {
    dsp == [] || dsp[0] == 'd' || dsp[0] == 'x' || dsp[0] == 'l'
  }

  /** The tags of the two transport syntaxes, in any case. */
  function TagSyntax(tag: string): Option<Stack> {
    if Same(tag, "RFC-1006") then Some(TCP) else if Same(tag, "X.25(80)") then Some(X25) else None
  }

  /** The value behind AFI and IDI: an NSAP prefix, or a tag and one more field. */
  function MadeOf(e: Afi, idi: string, dsp: string): Option<Made> {
    if !AllDigits(idi) then None
    else if Same(e.name, "X121") && dsp == [] then PrefixOf(X25, Some(SUBNET_INT_X25), Pack(idi))
    else if Direct(dsp) then PrefixOf(NSAP, None, ParseForm(e, idi, dsp))
    else
      var syntax, more := TagSyntax(Before(dsp, '+')), After(dsp, '+');
      if syntax.None? || After(more, '+') != [] then None
      else PrefixOf(syntax.value, None, ParseDec(e, idi, Before(more, '+')))
  }

  /** macro2comm on a macro's value; None is NOTOK. */
  function Macro2Comm(value: string): Option<Made> {
    var name, rest := Before(value, '+'), After(value, '+');
    if Same(name, "NS") then PrefixOf(NSAP, None, Implode(rest))
    else
      var e := Named(AFIS, name);
      if e.None? then None else MadeOf(e.value, Before(rest, '+'), After(rest, '+'))
  }

  method ReadCommunity(value: string) returns (r: Option<Made>)
    requires Ascii(value)
    ensures r == Macro2Comm(value)
  {
    hide ParseForm, ParseDec, Same, IndexOf, Named, Implode, Pack, Rep;
    var name, rest := Before(value, '+'), After(value, '+');
    if Same(name, "NS") {
      var b := ImplodeLoop(rest);
      return PrefixOf(NSAP, None, b);
    }
    var e := FindAfi(name);
    if e.None? {
      return None;
    }
    var idi, dsp := Before(rest, '+'), After(rest, '+');
    if !AllDigits(idi) {
      return None;
    }
    if Same(e.value.name, "X121") && dsp == [] {
      var b := PackLoop(idi);
      return PrefixOf(X25, Some(SUBNET_INT_X25), b);
    }
    if Direct(dsp) {
      var b := ReadForm(e.value, idi, dsp);
      return PrefixOf(NSAP, None, b);
    }
    var syntax, more := TagSyntax(Before(dsp, '+')), After(dsp, '+');
    if syntax.None? || After(more, '+') != [] {
      return None;
    }
    var b := ReadDec(e.value, idi, Before(more, '+'));
    r := PrefixOf(syntax.value, None, b);
  }

  /** The decimal AFI and IDI, and the prefix field behind them. */
  method ReadDec(e: Afi, idi: string, field: string) returns (b: Option<seq<Octet>>)
    ensures b == ParseDec(e, idi, field)
  {
    hide Pack, Rep;
    var (code, pad) := Choose(e.dec0, e.dec1, idi);
    var nsap := PadIdi(code, e.idiLen, idi, pad);
    var packed := PackLoop(nsap + field);
    b := Fitting(packed);
  }

  // ---------------------------------------------------------------- values with a tag

  /** A value made of an AFI name, an IDI, a tag and a prefix field. */
  function TaggedValue(name: string, idi: string, tag: string, field: string): string {
    name + ['+'] + (idi + ['+'] + (tag + ['+'] + (field + ['+'])))
  }

  lemma TagsApart()
    ensures TagSyntax("RFC-1006") == Some(TCP) && TagSyntax("X.25(80)") == Some(X25)
    ensures '+' !in "RFC-1006" && '+' !in "X.25(80)" && !Direct("RFC-1006") && !Direct("X.25(80)")
  {
    assert Same("RFC-1006", "RFC-1006") && Same("X.25(80)", "X.25(80)");
    assert Fold("X.25(80)"[0]) != Fold("RFC-1006"[0]);
  }

  /** Such a value belongs to the syntax of its tag, and its prefix is the NSAP of AFI, IDI and
      field in decimal. */
  lemma TaggedMade(e: Afi, idi: string, tag: string, field: string)
    requires e in AFIS && AllDigits(idi) && '+' !in field && '+' !in tag && !Direct(tag) && TagSyntax(tag).Some?
    ensures Macro2Comm(TaggedValue(e.name, idi, tag, field))
         == PrefixOf(TagSyntax(tag).value, None, ParseDec(e, idi, field))
  {
    TablePlain(e);
    TableNamed(e);
    hide AFIS, Named, ParseDec, ParseForm, Pack, TagSyntax;
    var r3 := field + ['+'];
    var r2 := tag + ['+'] + r3;
    var r1 := idi + ['+'] + r2;
    NoPlus(idi);
    CutAt(e.name, '+', r1);
    CutAt(idi, '+', r2);
    CutAt(tag, '+', r3);
    LastCut(field);
    hide Before, After, Has, AllDigits;
    assert r2[0] == tag[0];
  }

  lemma NoPlus(s: string)
    requires AllDigits(s)
    ensures '+' !in s
  {
  }

  lemma LastCut(s: string)
    requires '+' !in s
    ensures Has(s + ['+'], '+') && Before(s + ['+'], '+') == s && After(s + ['+'], '+') == []
  {
    CutAt(s, '+', []);
    assert s + ['+'] + [] == s + ['+'];
  }

  // ---------------------------------------------------------------- the built-in table

  const SUBNET_INTERNET := 3

  /** A built-in community with the value the macro file gives it. */
  function Shipped(subnet: int, syntax: Stack, tag: string, field: string, last: Octet): Community {
    Community(Some(TaggedValue("TELEX", "00728722", tag, field)), subnet, syntax, [0x54, 0x00, 0x72, 0x87, 0x22, last])
  }

  const REALNS := Community(Some("NS+"), SUBNET_REALNS, NSAP, [])
  const INT_X25 := Shipped(SUBNET_INT_X25, X25, "X.25(80)", "01", 1)
  const INTERNET := Shipped(SUBNET_INTERNET, TCP, "RFC-1006", "03", 3)
  const JANET := Shipped(SUBNET_DYNAMIC - 1, X25, "X.25(80)", "02", 2)
  const LOCAL_TCP := Shipped(SUBNET_DYNAMIC - 2, TCP, "RFC-1006", "05", 5)
  const IXI := Shipped(SUBNET_DYNAMIC - 3, X25, "X.25(80)", "06", 6)

  /** ts_interim before any tailoring (compat/isotailor.c). */
  const BUILTIN: seq<Community> := [REALNS, INT_X25, INTERNET, JANET, LOCAL_TCP, IXI]

  lemma PackStep(hi: char, lo: char, o: Octet, t: string, b: seq<Octet>)
    requires PairOctet(hi, lo) == o && Pack(t) == Some(b)
    ensures Pack([hi, lo] + t) == Some([o] + b)
  {
    assert ([hi, lo] + t)[2..] == t;
  }

  /** AFI, IDI and a field of two digits in six octets. */
  lemma TelexPrefix(d: char)
    requires IsDigit(d)
    ensures ParseDec(TELEX, "00728722", ['0', d]) == Some([0x54, 0x00, 0x72, 0x87, 0x22, DigitVal(d) as Octet])
  {
    TelexDigits(d);
    TelexCut(d);
    TelexOctets(d);
    var x: Octet := DigitVal(d);
    OctetCut(x);
    FittingSix(x);
    hide *;
    var f := ['0', d];
    PackEmpty();
    PackStep('0', d, x, "", []);
    PackStep('2', '2', 0x22, f, [x]);
    PackStep('8', '7', 0x87, "22" + f, [0x22, x]);
    PackStep('7', '2', 0x72, "8722" + f, [0x87, 0x22, x]);
    PackStep('0', '0', 0x00, "728722" + f, [0x72, 0x87, 0x22, x]);
    PackStep('5', '4', 0x54, "00728722" + f, [0x00, 0x72, 0x87, 0x22, x]);
  }

  lemma OctetCut(x: Octet)
    ensures [x] + [] == [x] && [0x22 as Octet] + [x] == [0x22, x] && [0x87 as Octet] + [0x22, x] == [0x87, 0x22, x]
    ensures [0x72 as Octet] + [0x87, 0x22, x] == [0x72, 0x87, 0x22, x]
    ensures [0x00 as Octet] + [0x72, 0x87, 0x22, x] == [0x00, 0x72, 0x87, 0x22, x]
    ensures [0x54 as Octet] + [0x00, 0x72, 0x87, 0x22, x] == [0x54, 0x00, 0x72, 0x87, 0x22, x]
  {
  }

  lemma FittingSix(x: Octet)
    ensures Fitting(Some([0x54, 0x00, 0x72, 0x87, 0x22, x])) == Some([0x54, 0x00, 0x72, 0x87, 0x22, x])
  {
  }

  lemma TelexOctets(d: char)
    requires IsDigit(d)
    ensures PairOctet('5', '4') == 0x54 && PairOctet('0', '0') == 0 && PairOctet('7', '2') == 0x72
    ensures PairOctet('8', '7') == 0x87 && PairOctet('2', '2') == 0x22 && PairOctet('0', d) == DigitVal(d)
  {
  }

  lemma TelexDigits(d: char)
    ensures ParseDec(TELEX, "00728722", ['0', d]) == Fitting(Pack("5400728722" + ['0', d]))
  {
    assert "54" + Rep('1', 0) + "00728722" == "5400728722";
  }

  lemma TelexCut(d: char)
    ensures "5400728722" + ['0', d] == ['5', '4'] + ("00728722" + ['0', d])
    ensures "00728722" + ['0', d] == ['0', '0'] + ("728722" + ['0', d])
    ensures "728722" + ['0', d] == ['7', '2'] + ("8722" + ['0', d])
    ensures "8722" + ['0', d] == ['8', '7'] + ("22" + ['0', d])
    ensures "22" + ['0', d] == ['2', '2'] + ['0', d] && ['0', d] == ['0', d] + ""
  {
  }

  lemma PackEmpty()
    ensures Pack("") == Some([])
  {
  }

  lemma ShippedMade(subnet: int, syntax: Stack, tag: string, d: char)
    requires IsDigit(d) && ((tag == "RFC-1006" && syntax == TCP) || (tag == "X.25(80)" && syntax == X25))
    ensures var c := Shipped(subnet, syntax, tag, ['0', d], DigitVal(d) as Octet);
            Macro2Comm(c.value.value) == Some(Made(syntax, None, c.prefix))
  {
    TagsApart();
    TelexDigitsOnly();
    var prefix: seq<Octet> := [0x54, 0x00, 0x72, 0x87, 0x22, DigitVal(d)];
    assert '+' !in ['0', d];
    PrefixFits(syntax, prefix);
    ShippedParts(subnet, syntax, tag, d);
    hide *;
    TelexPrefix(d);
    TaggedMade(TELEX, "00728722", tag, ['0', d]);
  }

  lemma ShippedParts(subnet: int, syntax: Stack, tag: string, d: char)
    ensures var c := Shipped(subnet, syntax, tag, ['0', d], DigitVal(d) as Octet);
            c.value == Some(TaggedValue("TELEX", "00728722", tag, ['0', d]))
            && c.prefix == [0x54, 0x00, 0x72, 0x87, 0x22, DigitVal(d) as Octet]
  {
  }

  lemma TelexDigitsOnly()
    ensures AllDigits("00728722") && TELEX in AFIS && TELEX.name == "TELEX"
  {
  }

  lemma PrefixFits(syntax: Stack, b: seq<Octet>)
    requires |b| <= PREFIXSIZE
    ensures PrefixOf(syntax, None, Some(b)) == Some(Made(syntax, None, b))
  {
  }

  lemma RealNsMade()
    ensures Macro2Comm("NS+") == Some(Made(NSAP, None, []))
  {
    LastCut("NS");
    assert "NS+" == "NS" + ['+'];
    assert Same("NS", "NS");
  }

  /** The table entry and the value of its macro say the same. */
  predicate MadeFrom(c: Community) {
    c.value.Some? && Macro2Comm(c.value.value) == Some(Made(c.syntax, None, c.prefix))
  }

  lemma EntryMade(i: nat)
    requires i < 6
    ensures MadeFrom(BUILTIN[i])
  {
    RealNsMade();
    DigitsOneToSix();
    hide Macro2Comm, TaggedValue;
    match i {
      case 0 =>
      case 1 => ShippedMade(SUBNET_INT_X25, X25, "X.25(80)", '1');
      case 2 => ShippedMade(SUBNET_INTERNET, TCP, "RFC-1006", '3');
      case 3 => ShippedMade(SUBNET_DYNAMIC - 1, X25, "X.25(80)", '2');
      case 4 => ShippedMade(SUBNET_DYNAMIC - 2, TCP, "RFC-1006", '5');
      case _ => ShippedMade(SUBNET_DYNAMIC - 3, X25, "X.25(80)", '6');
    }
  }

  /** macro2comm makes the built-in table what it is, all with prefixes and subnets of their
      own; and it is one that keeps every TCP and X.25 address. */
  lemma BuiltinTable()
    ensures forall c :: c in BUILTIN ==> MadeFrom(c)
    ensures T.PrefixFree(BUILTIN) && DistinctPrefixes(BUILTIN) && Numbered(BUILTIN, SUBNET_DYNAMIC)
    ensures Own(BUILTIN, SUBNET_INT_X25) == Some(INT_X25)
  {
    Entry(0);
    BuiltinOwn();
    BuiltinApart();
    hide *;
    forall c | c in BUILTIN
      ensures MadeFrom(c)
    {
      var i :| 0 <= i < |BUILTIN| && BUILTIN[i] == c;
      EntryMade(i);
    }
  }

  lemma DigitsOneToSix()
    ensures "01" == ['0', '1'] && "02" == ['0', '2'] && "03" == ['0', '3'] && "05" == ['0', '5'] && "06" == ['0', '6']
    ensures DigitVal('1') == 1 && DigitVal('2') == 2 && DigitVal('3') == 3 && DigitVal('5') == 5 && DigitVal('6') == 6
  {
  }

  /** The entries of the built-in table, but for their values. */
  lemma Entry(i: nat)
    requires i < 6
    ensures |BUILTIN| == 6
    ensures BUILTIN[i].prefix == if i == 0 then [] else [0x54, 0x00, 0x72, 0x87, 0x22, [0 as Octet, 1, 3, 2, 5, 6][i]]
    ensures BUILTIN[i].subnet == [-1, 1, 3, 99, 98, 97][i] && (BUILTIN[i].syntax.NSAP? <==> i == 0)
  {
    hide TaggedValue;
  }

  lemma EntriesDiffer(i: nat, j: nat)
    requires i < j < 6
    ensures BUILTIN[i].prefix != BUILTIN[j].prefix && BUILTIN[i].subnet != BUILTIN[j].subnet
    ensures i != 0 ==> !(BUILTIN[i].prefix <= BUILTIN[j].prefix) && !(BUILTIN[j].prefix <= BUILTIN[i].prefix)
  {
    Entry(i);
    Entry(j);
    hide BUILTIN;
    var p, q := BUILTIN[i].prefix, BUILTIN[j].prefix;
    assert i != 0 ==> p[5] != q[5];
  }

  lemma BuiltinApart()
    ensures T.PrefixFree(BUILTIN) && DistinctPrefixes(BUILTIN) && Numbered(BUILTIN, SUBNET_DYNAMIC)
  {
    Entry(0);
    forall i, j | 0 <= i < j < 6
      ensures BUILTIN[i].prefix != BUILTIN[j].prefix && BUILTIN[i].subnet != BUILTIN[j].subnet
    {
      EntriesDiffer(i, j);
    }
    forall i, j | 0 < i < 6 && 0 <= j < 6
      ensures BUILTIN[i].prefix <= BUILTIN[j].prefix <==> i == j
    {
      EntryAlone(i, j);
    }
    forall i | 0 <= i < 6
      ensures BUILTIN[i].subnet < SUBNET_DYNAMIC && (BUILTIN[i].syntax.NSAP? <==> i == 0)
      ensures i > 0 ==> BUILTIN[i].prefix != [] && BUILTIN[i].prefix[0] == 0x54
    {
      Entry(i);
    }
    ApartTable(BUILTIN);
  }

  lemma ApartTable(t: seq<Community>)
    requires |t| == 6
    requires forall i, j :: 0 <= i < j < 6 ==> t[i].prefix != t[j].prefix && t[i].subnet != t[j].subnet
    requires forall i, j :: 0 < i < 6 && 0 <= j < 6 ==> (t[i].prefix <= t[j].prefix <==> i == j)
    requires forall i :: 0 <= i < 6 ==> t[i].subnet < SUBNET_DYNAMIC && (t[i].syntax.NSAP? <==> i == 0)
    requires forall i :: 0 < i < 6 ==> t[i].prefix != [] && t[i].prefix[0] == 0x54
    ensures T.PrefixFree(t) && DistinctPrefixes(t) && Numbered(t, SUBNET_DYNAMIC)
  {
    forall c | c in t && !c.syntax.NSAP?
      ensures T.StandsApart(t, c)
    {
      var i :| 0 <= i < |t| && t[i] == c;
      forall d | d in t && c.prefix <= d.prefix
        ensures T.Alike(c, d)
      {
        var j :| 0 <= j < |t| && t[j] == d;
        assert t[i].prefix <= t[j].prefix;
      }
    }
  }

  lemma EntryAlone(i: nat, j: nat)
    requires 0 < i < 6 && j < 6
    ensures BUILTIN[i].prefix <= BUILTIN[j].prefix <==> i == j
  {
    Entry(i);
    Entry(j);
    hide BUILTIN;
    if i < j {
      EntriesDiffer(i, j);
    } else if 0 < j < i {
      EntriesDiffer(j, i);
    }
  }

  lemma BuiltinOwn()
    ensures Own(BUILTIN, SUBNET_INT_X25) == Some(INT_X25)
  {
    hide TaggedValue;
    assert BUILTIN[1..][0] == INT_X25;
  }

  // ---------------------------------------------------------------- tailored communities

  ghost predicate DistinctPrefixes(table: seq<Community>) {
    forall i, j :: 0 <= i < j < |table| ==> table[i].prefix != table[j].prefix
  }

  /** With pairwise distinct prefixes the community chosen is the unique longest match,
      so the order of the table is immaterial. */
  lemma PickIgnoresOrder(t: seq<Community>, u: seq<Community>, p: seq<Octet>)
    requires DistinctPrefixes(t) && (forall c :: c in t <==> c in u)
    ensures C.Pick(t, p) == C.Pick(u, p)
  {
    var a, b := C.Pick(t, p), C.Pick(u, p);
    if a.Some? {
      assert a.value in u;
      assert b.value in t;
      assert |a.value.prefix| == |b.value.prefix|;
      assert a.value.prefix == b.value.prefix;
      var i :| 0 <= i < |t| && t[i] == a.value;
      var j :| 0 <= j < |t| && t[j] == b.value;
    } else {
      assert forall c :: c in u ==> c in t;
    }
  }

  /** The subnets handed out to tailored communities lie above the built-in ones. */
  ghost predicate Numbered(table: seq<Community>, top: int) {
    DistinctSubnets(table) && forall c :: c in table ==> c.subnet < top
  }

  /** The search for a community with the same prefix. */
  method FindPrefix(table: seq<Community>, prefix: seq<Octet>) returns (i: nat)
    ensures i <= |table| && (i < |table| ==> table[i].prefix == prefix)
    ensures i == |table| ==> forall h :: 0 <= h < |table| ==> table[h].prefix != prefix
  {
    i := 0;
    while i < |table| && table[i].prefix != prefix
      invariant i <= |table| && forall h :: 0 <= h < i ==> table[h].prefix != prefix
    {
      i := i + 1;
    }
  }

  /** The loop of isodexport that adds the tailored communities behind the built-in ones,
      skipping a prefix that is already there (compat/isotailor.c).  A tailored community has
      subnet zero and gets the next number, or is an X.121 one and keeps SUBNET_INT_X25. */
  method AddCommunities(builtin: seq<Community>, tailored: seq<Community>) returns (table: seq<Community>)
    requires DistinctPrefixes(builtin)
    ensures DistinctPrefixes(table) && builtin <= table
    ensures forall c :: c in tailored ==> exists d :: d in table && d.prefix == c.prefix
    ensures forall d :: d in table[|builtin|..] ==> exists c :: c in tailored && d.prefix == c.prefix
    ensures Numbered(builtin, SUBNET_DYNAMIC) && Own(builtin, SUBNET_INT_X25).Some?
            && (forall c :: c in tailored ==> c.subnet == 0 || c.subnet == SUBNET_INT_X25)
            ==> (DistinctSubnets(table) <==> NoX121(table[|builtin|..]))
  {
    table := builtin;
    var j := SUBNET_DYNAMIC;
    ghost var numbered := Numbered(builtin, SUBNET_DYNAMIC) && Own(builtin, SUBNET_INT_X25).Some?
                          && forall c :: c in tailored ==> c.subnet == 0 || c.subnet == SUBNET_INT_X25;
    for k := 0 to |tailored|
      invariant DistinctPrefixes(table) && builtin <= table
      invariant forall c :: c in tailored[..k] ==> exists d :: d in table && d.prefix == c.prefix
      invariant forall d :: d in table[|builtin|..] ==> exists c :: c in tailored && d.prefix == c.prefix
      invariant numbered && NoX121(table[|builtin|..]) ==> Numbered(table, j)
    {
      var c := tailored[k];
      var i := FindPrefix(table, c.prefix);
      assert tailored[..k + 1] == tailored[..k] + [c];
      if i == |table| {
        var added := if c.subnet == 0 then c.(subnet := j) else c;
        AddOne(builtin, tailored, table, c, added);
        j := if c.subnet == 0 then j + 1 else j;
        table := table + [added];
      } else {
        assert table[i] in table;
      }
    }
    assert tailored[..|tailored|] == tailored;
    if numbered {
      X121Repeats(builtin, table);
    }
  }

  predicate NoX121(added: seq<Community>) {
    forall d :: d in added ==> d.subnet != SUBNET_INT_X25
  }

  lemma AddOne(builtin: seq<Community>, tailored: seq<Community>, table: seq<Community>, c: Community, added: Community)
    requires DistinctPrefixes(table) && builtin <= table && c in tailored && added.prefix == c.prefix
    requires forall h :: 0 <= h < |table| ==> table[h].prefix != c.prefix
    ensures DistinctPrefixes(table + [added]) && builtin <= table + [added]
    ensures forall d :: d in (table + [added])[|builtin|..] ==> d == added || d in table[|builtin|..]
    ensures forall d :: d in table ==> d in table + [added]
    ensures added in table + [added]
    ensures NoX121((table + [added])[|builtin|..])
            <==> NoX121(table[|builtin|..]) && added.subnet != SUBNET_INT_X25
    ensures forall top :: Numbered(table, top) && added.subnet == top ==> Numbered(table + [added], top + 1)
  {
    var tail := table[|builtin|..];
    assert (table + [added])[|builtin|..] == tail + [added];
    assert (tail + [added])[|tail|] == added;
    assert forall d :: d in tail ==> d in tail + [added];
  }

  /** A tailored X.121 community repeats the subnet of the built-in one; RoundTrip holds all
      the same. */
  lemma X121Repeats(builtin: seq<Community>, table: seq<Community>)
    requires builtin <= table && Own(builtin, SUBNET_INT_X25).Some?
    ensures !NoX121(table[|builtin|..]) ==> !DistinctSubnets(table)
  {
    var d := Own(builtin, SUBNET_INT_X25).value;
    var i :| 0 <= i < |builtin| && builtin[i] == d;
    assert table[i] == d;
    var tail := table[|builtin|..];
    if c :| c in tail && c.subnet == SUBNET_INT_X25 {
      var k :| 0 <= k < |tail| && tail[k] == c;
      assert table[|builtin| + k].subnet == table[i].subnet;
    }
  }
}
