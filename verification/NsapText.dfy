/** The AFI+IDI+DSP text form of NSAP addresses: printing (the NA_NSAP case of _paddr2str)
    and parsing (the afi_entries branch of str2paddr), both in compat/isoaddrs.c. */
module NsapText {
  import opened Options
  import opened Digits
  import opened Addresses
  import opened Macros

  // ---------------------------------------------------------------- the AFI table

  /** struct afi_info: the AFI digits of each syntax and the number of IDI digits. */
  datatype Afi = Afi(name: string, dec0: string, hex0: string, dec1: Option<string>, hex1: Option<string>,
                     ia5: Option<string>, idiLen: nat)

  const X121 := Afi("X121", "36", "37", Some("52"), Some("53"), None, 14)
  const DCC := Afi("DCC", "38", "39", None, None, None, 3)
  const TELEX := Afi("TELEX", "40", "41", Some("54"), Some("55"), None, 8)
  const PSTN := Afi("PSTN", "42", "43", Some("56"), Some("57"), None, 12)
  const ISDN := Afi("ISDN", "44", "45", Some("58"), Some("59"), None, 15)
  const ICD := Afi("ICD", "46", "47", None, None, None, 4)
  const LOCAL := Afi("LOCAL", "48", "49", None, None, Some("50"), 0)

  const AFIS: seq<Afi> := [X121, DCC, TELEX, PSTN, ISDN, ICD, LOCAL]

  /** The syntax of a DSP: decimal, hexadecimal or characters. */
  datatype Mark = MarkD | MarkX | MarkL

  function MarkChar(m: Mark): char {
    match m case MarkD => 'd' case MarkX => 'x' case MarkL => 'l'
  }

  /** What the printer makes of an AFI: the table entry, the IDI pad digit and the mark. */
  datatype Reading = Reading(entry: Afi, pad: Option<char>, mark: Mark)

  function ReadEntry(a: Afi, code: string): Option<Reading> {
    if a.dec0 == code then Some(Reading(a, if a.dec1.Some? then Some('0') else None, MarkD))
    else if a.dec1 == Some(code) then Some(Reading(a, Some('1'), MarkD))
    else if a.hex0 == code then Some(Reading(a, if a.hex1.Some? then Some('0') else None, MarkX))
    else if a.hex1 == Some(code) then Some(Reading(a, Some('1'), MarkX))
    else if a.ia5 == Some(code) then Some(Reading(a, None, MarkL))
    else None
  }

  function ReadAfi(entries: seq<Afi>, code: string): (r: Option<Reading>)
    ensures r.Some? ==> r.value.entry in entries && ReadEntry(r.value.entry, code) == r
  {
    if entries == [] then None
    else if ReadEntry(entries[0], code).Some? then ReadEntry(entries[0], code)
    else ReadAfi(entries[1..], code)
  }

  /** The case-blind search for an AFI name. */
  function Named(entries: seq<Afi>, name: string): (r: Option<Afi>)
    ensures r.Some? ==> r.value in entries && Same(r.value.name, name)
  {
    if entries == [] then None
    else if Same(entries[0].name, name) then Some(entries[0])
    else Named(entries[1..], name)
  }

  // ---------------------------------------------------------------- printing

  /** The DSP as printed: without the pad nibble behind an AFI+IDI of odd length, or
      without the trailing pad of a decimal DSP. */
  function DspText(mark: Mark, at: nat, dsp: string): string {
    if at % 2 == 1 && dsp != [] && dsp[0] == 'f' then dsp[1..]
    else if mark.MarkD? && dsp != [] && dsp[|dsp| - 1] == 'f' then dsp[..|dsp| - 1]
    else dsp
  }

  function FormOf(name: string, idi: string, mark: Mark, d: string): string {
    name + "+" + idi + (if d == [] then "" else "+" + [MarkChar(mark)] + d)
  }

  function FormText(r: Reading, h: string): string
    requires |h| >= 2 + r.entry.idiLen
  {
    var at := 2 + r.entry.idiLen;
    FormOf(r.entry.name, Strip(r.pad, h[2..at]), r.mark, DspText(r.mark, at, h[at..]))
  }

  function ReadOctets(b: seq<Octet>): Option<Reading> {
    if b == [] then None else ReadAfi(AFIS, Explode(b)[..2])
  }

  /** The printed form; None for an address shorter than its own AFI and IDI, where the
      printer reads behind the end of its buffer. */
  function PrintNsap(b: seq<Octet>): Option<string> {
    var r := ReadOctets(b);
    if r.None? then Some("NS+" + Explode(b))
    else if 2 * |b| < 2 + r.value.entry.idiLen then None
    else Some(FormText(r.value, Explode(b)))
  }

  // ---------------------------------------------------------------- parsing

  /** The AFI and pad digit the parser chooses: the ones for an IDI with a leading zero
      when there are such. */
  function Choose(zero: string, one: Option<string>, idi: string): (string, char) {
    if idi != [] && idi[0] == '0' && one.Some? then (one.value, '1') else (zero, '0')
  }

  function Lead(zero: string, one: Option<string>, idiLen: nat, idi: string): string {
    var (code, pad) := Choose(zero, one, idi);
    code + Rep(pad, idiLen - |idi|) + idi
  }

  function Fitting(o: Option<seq<Octet>>): Option<seq<Octet>> {
    if o.Some? && |o.value| > NASIZE then None else o
  }

  function ParseDec(e: Afi, idi: string, dsp: string): Option<seq<Octet>> {
    Fitting(Pack(Lead(e.dec0, e.dec1, e.idiLen, idi) + dsp))
  }

  function ParseHex(e: Afi, idi: string, dsp: string): Option<seq<Octet>> {
    var lead := Pack(Lead(e.hex0, e.hex1, e.idiLen, idi));
    if lead.None? then None else Fitting(Join(lead.value, Implode(dsp)))
  }

  function CharOctets(s: string): (r: Option<seq<Octet>>)
    ensures r.Some? ==> |r.value| == |s|
  {
    if s == [] then Some([])
    else if s[0] as int < 256 then Join([s[0] as int as Octet], CharOctets(s[1..])) else None
  }

  function ParseIa5(e: Afi, dsp: string): Option<seq<Octet>> {
    if e.ia5.None? || Pack(e.ia5.value).None? then None
    else Fitting(Join(Pack(e.ia5.value).value, CharOctets(dsp)))
  }

  /** The switch on the character behind the IDI; only the NSAP forms. */
  function ParseForm(e: Afi, idi: string, dsp: string): Option<seq<Octet>> {
    if !AllDigits(idi) then None
    else if dsp == [] then ParseDec(e, idi, [])
    else if dsp[0] == 'd' then ParseDec(e, idi, dsp[1..])
    else if dsp[0] == 'x' then ParseHex(e, idi, dsp[1..])
    else if dsp[0] == 'l' then ParseIa5(e, dsp[1..])
    else None
  }

  // ---------------------------------------------------------------- canonical addresses

  predicate LowerHex(s: string) {
    forall i :: 0 <= i < |s| ==> '0' <= s[i] <= '9' || 'a' <= s[i] <= 'f'
  }

  /** Digits, the last of which may be the pad nibble. */
  predicate DecimalTail(s: string) {
    s == [] || (AllDigits(s[..|s| - 1]) && (IsDigit(s[|s| - 1]) || s[|s| - 1] == 'f'))
  }

  /** The IDIs that keep their AFI: an AFI for IDIs with a leading zero has one. */
  predicate PadGood(pad: Option<char>, idi: string) {
    pad == Some('1') ==> Strip(pad, idi) != [] && Strip(pad, idi)[0] == '0'
  }

  /** The DSPs the parser can rebuild from their text. */
  predicate DspGood(mark: Mark, at: nat, dsp: string) {
    match mark
    case MarkD => DecimalTail(dsp)
    case MarkX => dsp != [] && (at % 2 == 1 ==> |dsp| > 1 && dsp[0] == 'f')
    case MarkL => false
  }

  // ---------------------------------------------------------------- nibbles and octets

  function Trail(s: string): string {
    if |s| % 2 == 1 then "f" else ""
  }

  lemma {:induction false} ExplodeInjective(a: seq<Octet>, b: seq<Octet>)
    requires Explode(a) == Explode(b)
    ensures a == b
  {
    OctetsExplode(a);
    OctetsExplode(b);
  }

  lemma ExplodePair(hi: char, lo: char)
    requires LowerHex([hi, lo])
    ensures 0 <= PairOctet(hi, lo) < 256 <==> IsDigit(hi)
    ensures IsDigit(hi) ==> var o: Octet := PairOctet(hi, lo);
              NibChar(o / 16) == hi && IsDigit(NibChar(o % 16)) && (IsDigit(lo) ==> NibChar(o % 16) == lo)
  {
    assert '0' <= [hi, lo][0] <= '9' || 'a' <= [hi, lo][0] <= 'f';
    assert '0' <= [hi, lo][1] <= '9' || 'a' <= [hi, lo][1] <= 'f';
    if IsDigit(hi) {
      assert PairOctet(hi, lo) / 16 == hi as int - '0' as int;
      assert PairOctet(hi, lo) % 16 == (lo as int - '0' as int) % 16;
    }
  }

  lemma ExplodeTail(hi: char)
    requires LowerHex([hi])
    ensures 0 <= TailOctet(hi) < 256 <==> IsDigit(hi)
    ensures IsDigit(hi) ==> var o: Octet := TailOctet(hi); NibChar(o / 16) == hi && NibChar(o % 16) == 'f'
  {
    assert '0' <= [hi][0] <= '9' || 'a' <= [hi][0] <= 'f';
    if IsDigit(hi) {
      assert TailOctet(hi) / 16 == hi as int - '0' as int && TailOctet(hi) % 16 == 15;
    }
  }

  lemma ExplodeCons(o: Octet, r: seq<Octet>)
    ensures Explode([o] + r) == [NibChar(o / 16), NibChar(o % 16)] + Explode(r)
    ensures Explode([o]) == [NibChar(o / 16), NibChar(o % 16)] && Explode([]) == []
  {
    assert ([o] + r)[1..] == r && [o][1..] == [];
  }

  lemma PackCons(s: string)
    ensures |s| == 0 ==> Pack(s) == Some([])
    ensures |s| == 1 ==> Pack(s) == if 0 <= TailOctet(s[0]) < 256 then Some([TailOctet(s[0]) as Octet]) else None
    ensures |s| >= 2 ==> Pack(s) == if 0 <= PairOctet(s[0], s[1]) < 256
                                    then Join([PairOctet(s[0], s[1]) as Octet], Pack(s[2..])) else None
  {
  }

  /** Packed digits read in hexadecimal are the digits and the pad. */
  lemma {:induction false} ExplodePack(s: string)
    requires AllDigits(s)
    ensures Pack(s).Some? && Explode(Pack(s).value) == s + Trail(s)
  {
    hide PairOctet, TailOctet, NibChar, Explode, Pack;
    PackCons(s);
    if |s| == 0 {
      ExplodeCons(0, []);
      assert s + Trail(s) == [];
    } else if |s| == 1 {
      ExplodeTail(s[0]);
      ExplodeCons(TailOctet(s[0]), []);
      assert s + "f" == [s[0], 'f'];
    } else {
      ExplodePack(s[2..]);
      ExplodePair(s[0], s[1]);
      ExplodeCons(PairOctet(s[0], s[1]), Pack(s[2..]).value);
      assert s + Trail(s) == [s[0], s[1]] + (s[2..] + Trail(s[2..]));
    }
  }

  /** Whatever hexadecimal text the packing lets through, the result is digits and a pad. */
  lemma {:induction false} PackGivesDigits(s: string) returns (t: string)
    requires LowerHex(s) && Pack(s).Some?
    ensures |t| == |s| && AllDigits(t) && Explode(Pack(s).value) == t + Trail(s)
  {
    if |s| < 2 {
      PackShort(s);
      t := s;
    } else {
      var first := PackFirst(s);
      hide *;
      var u := PackGivesDigits(s[2..]);
      t := first + u;
      AllDigitsConcat(first, u);
      TrailRest(s);
      assert first + (u + Trail(s)) == first + u + Trail(s);
    }
  }

  lemma TrailRest(s: string)
    requires |s| >= 2
    ensures Trail(s) == Trail(s[2..])
  {
  }

  lemma PackShort(s: string)
    requires LowerHex(s) && Pack(s).Some? && |s| < 2
    ensures AllDigits(s) && Explode(Pack(s).value) == s + Trail(s)
  {
    hide TailOctet, PairOctet, NibChar, Explode, Pack;
    PackCons(s);
    if |s| == 0 {
      ExplodeCons(0, []);
    } else {
      assert LowerHex([s[0]]);
      ExplodeTail(s[0]);
      hide LowerHex;
      ExplodeCons(TailOctet(s[0]), []);
      assert s + "f" == [s[0], 'f'];
    }
  }

  lemma PackFirst(s: string) returns (first: string)
    requires LowerHex(s) && Pack(s).Some? && |s| >= 2
    ensures LowerHex(s[2..]) && Pack(s[2..]).Some?
    ensures |first| == 2 && AllDigits(first) && Explode(Pack(s).value) == first + Explode(Pack(s[2..]).value)
  {
    hide PairOctet, NibChar, Explode, Pack;
    PackCons(s);
    assert LowerHex([s[0], s[1]]);
    ExplodePair(s[0], s[1]);
    var o: Octet := PairOctet(s[0], s[1]);
    first := [NibChar(o / 16), NibChar(o % 16)];
    ExplodeCons(o, Pack(s[2..]).value);
  }

  lemma NibOfHex(c: char)
    requires '0' <= c <= '9' || 'a' <= c <= 'f'
    ensures NibChar(HexVal(c)) == c
  {
  }

  lemma {:induction false} ExplodeOctets(s: string)
    requires LowerHex(s) && |s| % 2 == 0
    ensures Explode(Octets(s)) == s
  {
    hide NibChar, HexVal, Explode;
    ExplodeCons(0, []);
    if s != [] {
      ExplodeOctets(s[2..]);
      NibOfHex(s[0]);
      NibOfHex(s[1]);
      var o := HexVal(s[0]) * 16 + HexVal(s[1]);
      assert o / 16 == HexVal(s[0]) && o % 16 == HexVal(s[1]);
      ExplodeCons(o, Octets(s[2..]));
      assert s == [s[0], s[1]] + s[2..];
    }
  }

  lemma ExplodeLower(b: seq<Octet>)
    ensures LowerHex(Explode(b))
  {
    ExplodeHex(b);
  }

  // ---------------------------------------------------------------- IDI padding

  /** Which of two AFIs a reading is about, and its pad digit. */
  predicate Chosen(zero: string, one: Option<string>, code: string, pad: Option<char>) {
    && |zero| == 2 && AllDigits(zero)
    && (one.Some? ==> |one.value| == 2 && AllDigits(one.value) && one.value != zero)
    && ((code == zero && pad == if one.Some? then Some('0') else None) || (one == Some(code) && pad == Some('1')))
  }

  /** The parser rebuilds AFI and IDI exactly for good padding, and picks the other AFI
      otherwise. */
  lemma LeadBack(zero: string, one: Option<string>, code: string, pad: Option<char>, idi: string)
    requires Chosen(zero, one, code, pad) && AllDigits(idi)
    ensures |code| == 2 && AllDigits(Strip(pad, idi))
    ensures var l := Lead(zero, one, |idi|, Strip(pad, idi));
            && AllDigits(l)
            && (if PadGood(pad, idi) then l == code + idi else |l| >= 2 && l[..2] != code)
  {
    hide Strip, Rep;
    var t := Strip(pad, idi);
    if pad.None? {
      StripNone(idi);
      assert Rep('0', 0) + idi == idi;
      assert zero + Rep('0', 0) + idi == zero + idi;
    } else {
      StripPad(pad.value, idi);
      StripDigits(pad.value, idi);
      var (c, p) := Choose(zero, one, t);
      RepDigits(p, |idi| - |t|);
      assert c + Rep(p, |idi| - |t|) + t == c + (Rep(p, |idi| - |t|) + t);
      assert Lead(zero, one, |idi|, t)[..2] == c;
    }
  }

  /** A decimal DSP as printed, behind AFI and IDI, is the address without its last pad. */
  lemma DecimalText(lead: string, dsp: string)
    requires AllDigits(lead) && DecimalTail(dsp) && (|lead| + |dsp|) % 2 == 0
    ensures var s := lead + DspText(MarkD, |lead|, dsp);
            AllDigits(s) && s + Trail(s) == lead + dsp
  {
    if dsp == [] {
      assert lead + "" == lead;
    } else {
      var n := |dsp| - 1;
      var front := dsp[..n];
      assert dsp == front + [dsp[n]];
      AllDigitsConcat(lead, front);
      if dsp[n] == 'f' {
        FoundPad(|lead|, dsp);
        hide *;
        assert lead + front + "f" == lead + dsp;
      } else {
        AllDigitsConcat(lead, dsp);
        assert DspText(MarkD, |lead|, dsp) == dsp;
        hide *;
        assert lead + dsp + "" == lead + dsp;
      }
    }
  }

  lemma FoundPad(at: nat, dsp: string)
    requires dsp != [] && AllDigits(dsp[..|dsp| - 1]) && dsp[|dsp| - 1] == 'f' && (at + |dsp|) % 2 == 0
    ensures DspText(MarkD, at, dsp) == dsp[..|dsp| - 1]
  {
    assert |dsp| > 1 ==> dsp[..|dsp| - 1][0] == dsp[0];
  }

  lemma DigitsHex(s: string, t: string)
    requires AllDigits(s) && LowerHex(t)
    ensures LowerHex(s + t)
  {
  }

  lemma SliceHex(h: string, mark: Mark, at: nat)
    requires LowerHex(h) && at <= |h|
    ensures LowerHex(h[at..]) && LowerHex(DspText(mark, at, h[at..]))
  {
  }

  /** Digits and a pad, seen from any position. */
  lemma TailOfDigits(t: string, trail: string, at: nat)
    requires AllDigits(t) && (trail == "" || trail == "f") && at <= |t + trail|
    ensures DecimalTail((t + trail)[at..])
  {
    var u := (t + trail)[at..];
    if u != [] {
      forall i | 0 <= i < |u| - 1
        ensures IsDigit(u[i])
      {
        assert u[i] == t[at + i];
      }
      assert u[|u| - 1] == (t + trail)[|t + trail| - 1];
    }
  }

  /** The decimal syntax. */
  lemma DecimalExact(e: Afi, code: string, pad: Option<char>, b: seq<Octet>, idi: string, dsp: string)
    requires Chosen(e.dec0, e.dec1, code, pad) && AllDigits(idi) && |idi| == e.idiLen
    requires Explode(b) == code + idi + dsp && |b| <= NASIZE
    ensures ParseDec(e, Strip(pad, idi), DspText(MarkD, 2 + |idi|, dsp)) == Some(b)
            <==> PadGood(pad, idi) && DecimalTail(dsp)
  {
    hide *;
    var d := DspText(MarkD, 2 + |idi|, dsp);
    var lead := Lead(e.dec0, e.dec1, |idi|, Strip(pad, idi));
    LeadBack(e.dec0, e.dec1, code, pad, idi);
    Pieces(b, MarkD, code, idi, dsp);
    DecOf(e, Strip(pad, idi), d, b);
    if Pack(lead + d) == Some(b) {
      DecimalOnly(lead, d, code, idi, dsp, b);
    }
    if PadGood(pad, idi) && DecimalTail(dsp) {
      DecimalGood(lead, dsp, b);
    }
  }

  lemma DecOf(e: Afi, idi: string, d: string, b: seq<Octet>)
    requires |b| <= NASIZE
    ensures ParseDec(e, idi, d) == Some(b) <==> Pack(Lead(e.dec0, e.dec1, e.idiLen, idi) + d) == Some(b)
  {
  }

  lemma DecimalOnly(lead: string, d: string, code: string, idi: string, dsp: string, b: seq<Octet>)
    requires |lead| >= 2 && AllDigits(lead) && LowerHex(d) && Pack(lead + d) == Some(b)
    requires Explode(b) == code + idi + dsp && |code| == 2
    ensures lead[..2] == code && DecimalTail(dsp)
  {
    hide *;
    var h := Explode(b);
    DigitsHex(lead, d);
    var t := PackGivesDigits(lead + d);
    PackStart(lead, d, b);
    TrailCases(lead + d);
    TailOfDigits(t, Trail(lead + d), 2 + |idi|);
    assert h[2 + |idi|..] == dsp && h[..2] == code;
  }

  lemma TrailCases(s: string)
    ensures Trail(s) == "" || Trail(s) == "f"
  {
  }

  lemma DecimalGood(lead: string, dsp: string, b: seq<Octet>)
    requires AllDigits(lead) && DecimalTail(dsp) && Explode(b) == lead + dsp
    ensures Pack(lead + DspText(MarkD, |lead|, dsp)) == Some(b)
  {
    hide *;
    DecimalText(lead, dsp);
    var s := lead + DspText(MarkD, |lead|, dsp);
    ExplodePack(s);
    ExplodeInjective(Pack(s).value, b);
  }

  /** Packing keeps the first two digits. */
  lemma PackStart(lead: string, d: string, b: seq<Octet>)
    requires |lead| >= 2 && AllDigits(lead) && Pack(lead + d) == Some(b)
    ensures |Explode(b)| >= 2 && Explode(b)[..2] == lead[..2]
  {
    hide PairOctet, Explode, NibChar, Pack;
    var s := lead + d;
    PackCons(s);
    assert LowerHex([s[0], s[1]]);
    ExplodePair(s[0], s[1]);
    assert Pack(s[2..]).Some?;
    ExplodeCons(PairOctet(s[0], s[1]), Pack(s[2..]).value);
    assert lead[..2] == [s[0], s[1]];
  }

  /** The hexadecimal syntax, when there is a DSP to print. */
  lemma HexExact(e: Afi, code: string, pad: Option<char>, b: seq<Octet>, idi: string, dsp: string)
    requires Chosen(e.hex0, e.hex1, code, pad) && AllDigits(idi) && |idi| == e.idiLen
    requires Explode(b) == code + idi + dsp && |b| <= NASIZE
    ensures ParseHex(e, Strip(pad, idi), DspText(MarkX, 2 + |idi|, dsp)) == Some(b)
            <==> PadGood(pad, idi) && ((2 + |idi|) % 2 == 1 ==> dsp[0] == 'f')
  {
    hide *;
    var d := DspText(MarkX, 2 + |idi|, dsp);
    var lead := Lead(e.hex0, e.hex1, |idi|, Strip(pad, idi));
    LeadBack(e.hex0, e.hex1, code, pad, idi);
    Pieces(b, MarkX, code, idi, dsp);
    HexShape(code + idi, dsp);
    ExplodePack(lead);
    HexOf(e, Strip(pad, idi), d);
    if PadGood(pad, idi) {
      HexGood(lead, d, dsp, b);
    } else {
      HexBad(lead, d, b);
    }
  }

  lemma HexOf(e: Afi, idi: string, d: string)
    requires Pack(Lead(e.hex0, e.hex1, e.idiLen, idi)).Some?
    ensures ParseHex(e, idi, d) == Fitting(Join(Pack(Lead(e.hex0, e.hex1, e.idiLen, idi)).value, Implode(d)))
  {
  }

  /** An address cut into AFI, IDI and DSP. */
  lemma Pieces(b: seq<Octet>, mark: Mark, code: string, idi: string, dsp: string)
    requires Explode(b) == code + idi + dsp && |code| == 2
    ensures LowerHex(dsp) && LowerHex(DspText(mark, 2 + |idi|, dsp))
    ensures |b| >= 1 && Explode(b)[..2] == code && (2 + |idi| + |dsp|) % 2 == 0
  {
    hide Explode;
    ExplodeLower(b);
    var h := Explode(b);
    assert h[2 + |idi|..] == dsp;
    SliceHex(h, mark, 2 + |idi|);
  }

  lemma HexGood(lead: string, d: string, dsp: string, b: seq<Octet>)
    requires AllDigits(lead) && LowerHex(d) && Explode(b) == lead + dsp && |b| <= NASIZE
    requires |d| % 2 == 0 ==> Trail(lead) + d == dsp
    ensures Pack(lead).Some?
    ensures Fitting(Join(Pack(lead).value, Implode(d))) == Some(b) <==> |d| % 2 == 0
  {
    hide Pack, Explode, LowerHex, AllDigits, Octets, Implode, Join;
    HexParts(lead, d);
    if |d| % 2 == 0 {
      assert lead + Trail(lead) + d == lead + (Trail(lead) + d);
      ExplodeInjective(Pack(lead).value + Octets(d), b);
    }
  }

  lemma HexBad(lead: string, d: string, b: seq<Octet>)
    requires AllDigits(lead) && LowerHex(d) && |lead| >= 2 && |b| >= 1 && Explode(b)[..2] != lead[..2]
    ensures Pack(lead).Some?
    ensures Fitting(Join(Pack(lead).value, Implode(d))) != Some(b)
  {
    hide Pack, Explode, LowerHex, AllDigits, Octets, Implode, Join;
    HexParts(lead, d);
    if |d| % 2 == 0 {
      assert (lead + Trail(lead) + d)[..2] == lead[..2];
    }
  }

  /** A hexadecimal DSP is printed whole exactly when the pad it must follow is there. */
  lemma HexShape(lead: string, dsp: string)
    requires (|lead| + |dsp|) % 2 == 0
    ensures var d := DspText(MarkX, |lead|, dsp);
            && (|d| % 2 == 0 <==> (|lead| % 2 == 1 ==> dsp[0] == 'f'))
            && (|d| % 2 == 0 ==> Trail(lead) + d == dsp)
  {
  }

  lemma HexParts(lead: string, d: string)
    requires AllDigits(lead) && LowerHex(d)
    ensures Pack(lead).Some?
    ensures Join(Pack(lead).value, Implode(d)).Some? <==> |d| % 2 == 0
    ensures |d| % 2 == 0 ==> Join(Pack(lead).value, Implode(d)) == Some(Pack(lead).value + Octets(d))
                             && Explode(Pack(lead).value + Octets(d)) == lead + Trail(lead) + d
  {
    hide Pack, Explode, Octets, Trail, LowerHex;
    ExplodePack(lead);
    LowerAll(d);
    if |d| % 2 == 0 {
      ExplodeOctets(d);
      ExplodeConcat(Pack(lead).value, Octets(d));
    }
  }

  lemma LowerAll(s: string)
    requires LowerHex(s)
    ensures AllHex(s)
  {
  }

  // ---------------------------------------------------------------- the round trip

  /** What the table promises about the codes of each entry. */
  predicate Coded(e: Afi) {
    && Code2(e.dec0) && Code2(e.hex0) && e.dec0 != e.hex0
    && (e.dec1.Some? ==> Code2(e.dec1.value) && e.dec1.value != e.dec0 && e.dec1.value != e.hex0)
    && (e.hex1.Some? ==> Code2(e.hex1.value) && e.hex1.value != e.dec0 && e.hex1.value != e.hex0)
    && (e.dec1.Some? && e.hex1.Some? ==> e.dec1.value != e.hex1.value)
    && (e.ia5.Some? ==> Code2(e.ia5.value) && e.ia5.value != e.dec0 && e.dec1.None? && e.idiLen == 0)
  }

  predicate Code2(c: string) {
    |c| == 2 && IsDigit(c[0]) && IsDigit(c[1])
  }

  lemma TableCoded(e: Afi)
    requires e in AFIS
    ensures Coded(e)
  {
    assert e in [X121, DCC, TELEX, PSTN, ISDN, ICD, LOCAL];
    if e == X121 {
    } else if e == DCC {
    } else if e == TELEX {
    } else if e == PSTN {
    } else if e == ISDN {
    } else if e == ICD {
    } else {
      assert e == LOCAL;
    }
  }

  predicate Plain(name: string) {
    |name| >= 3 && forall c :: c in name ==> 'A' <= c <= 'Z' || '0' <= c <= '9'
  }

  lemma TablePlain(e: Afi)
    requires e in AFIS
    ensures Plain(e.name) && 'A' <= e.name[0] <= 'Z'
  {
    assert e in [X121, DCC, TELEX, PSTN, ISDN, ICD, LOCAL];
  }

  /** A cheap reason for two names to differ. */
  predicate Apart(a: string, b: string) {
    |a| != |b| || (a != [] && Fold(a[0]) != Fold(b[0]))
  }

  lemma {:induction false} NamedApart(entries: seq<Afi>, k: nat)
    requires k < |entries| && forall i, j :: 0 <= i < j < |entries| ==> Apart(entries[i].name, entries[j].name)
    ensures Named(entries, entries[k].name) == Some(entries[k])
  {
    if k > 0 {
      assert Apart(entries[0].name, entries[k].name);
      var rest := entries[1..];
      assert forall i :: 0 <= i < |rest| ==> rest[i] == entries[i + 1];
      NamedApart(rest, k - 1);
    }
  }

  /** Every name of the table finds its own entry. */
  lemma TableNamed(e: Afi)
    requires e in AFIS
    ensures Named(AFIS, e.name) == Some(e)
  {
    hide Named;
    var k :| 0 <= k < |AFIS| && AFIS[k] == e;
    forall i, j | 0 <= i < j < |AFIS|
      ensures Apart(AFIS[i].name, AFIS[j].name)
    {
    }
    NamedApart(AFIS, k);
  }

  lemma CodeDigits(c: string)
    requires Code2(c)
    ensures |c| == 2 && AllDigits(c)
  {
  }

  /** What a reading says about the code it was made from. */
  lemma ReadingFacts(e: Afi, code: string, r: Reading)
    requires Coded(e) && ReadEntry(e, code) == Some(r)
    ensures r.entry == e
    ensures match r.mark
            case MarkD => Chosen(e.dec0, e.dec1, code, r.pad)
            case MarkX => Chosen(e.hex0, e.hex1, code, r.pad) && code != e.dec0 && e.dec1 != Some(code)
            case MarkL => e.ia5 == Some(code) && r.pad.None? && e.idiLen == 0 && code != e.dec0 && e.dec1.None?
  {
    CodeDigits(e.dec0);
    CodeDigits(e.hex0);
    if e.dec1.Some? { CodeDigits(e.dec1.value); }
    if e.hex1.Some? { CodeDigits(e.hex1.value); }
  }

  /** Without a mark the parser takes the decimal AFIs, whatever was printed. */
  lemma DecimalCode(e: Afi, idi: string, b: seq<Octet>)
    requires Coded(e) && AllDigits(idi) && ParseDec(e, idi, []) == Some(b)
    ensures |b| >= 1 && (Explode(b)[..2] == e.dec0 || e.dec1 == Some(Explode(b)[..2]))
  {
    var (code, pad) := Choose(e.dec0, e.dec1, idi);
    CodeDigits(code);
    RepDigits(pad, e.idiLen - |idi|);
    hide AllDigits, Pack, Explode, Rep;
    var lead := Lead(e.dec0, e.dec1, e.idiLen, idi);
    AllDigitsConcat(code, Rep(pad, e.idiLen - |idi|));
    AllDigitsConcat(code + Rep(pad, e.idiLen - |idi|), idi);
    PackStart(lead, [], b);
    assert lead[..2] == code;
  }

  function Marked(mark: Mark, d: string): string {
    if d == [] then [] else [MarkChar(mark)] + d
  }

  lemma MarkedForm(e: Afi, mark: Mark, idi: string, d: string)
    requires AllDigits(idi)
    ensures ParseForm(e, idi, Marked(mark, d))
         == if d == [] || mark.MarkD? then ParseDec(e, idi, d)
            else if mark.MarkX? then ParseHex(e, idi, d) else ParseIa5(e, d)
  {
    if d != [] {
      assert ([MarkChar(mark)] + d)[1..] == d;
    }
  }

  lemma StripKeepsDigits(pad: Option<char>, s: string)
    requires pad.Some? ==> IsDigit(pad.value)
    ensures AllDigits(Strip(pad, s)) <==> AllDigits(s)
  {
    if pad.Some? {
      StripDigits(pad.value, s);
    } else {
      StripNone(s);
    }
  }

  /** The whole text form of an entry of the table: read back exactly for canonical
      addresses. */
  lemma FormExact(e: Afi, code: string, r: Reading, b: seq<Octet>, idi: string, dsp: string)
    requires Coded(e) && ReadEntry(e, code) == Some(r) && |idi| == e.idiLen && |code| == 2
    requires Explode(b) == code + idi + dsp && |b| <= NASIZE
    ensures ParseForm(e, Strip(r.pad, idi), Marked(r.mark, DspText(r.mark, 2 + |idi|, dsp))) == Some(b)
            <==> AllDigits(idi) && PadGood(r.pad, idi) && DspGood(r.mark, 2 + |idi|, dsp)
  {
    hide *;
    ReadingFacts(e, code, r);
    ReadingPad(e, code, r);
    StripKeepsDigits(r.pad, idi);
    var d := DspText(r.mark, 2 + |idi|, dsp);
    Pieces(b, r.mark, code, idi, dsp);
    if !AllDigits(idi) {
      NotDigits(e, Strip(r.pad, idi), Marked(r.mark, d));
    } else {
      MarkedForm(e, r.mark, Strip(r.pad, idi), d);
      DspShape(r.mark, 2 + |idi|, dsp);
      match r.mark
      case MarkD => DecimalExact(e, code, r.pad, b, idi, dsp);
      case MarkX =>
        if d == [] {
          if ParseDec(e, Strip(r.pad, idi), []) == Some(b) {
            DecimalCode(e, Strip(r.pad, idi), b);
          }
        } else {
          HexExact(e, code, r.pad, b, idi, dsp);
        }
      case MarkL =>
        if d == [] {
          if ParseDec(e, Strip(r.pad, idi), []) == Some(b) {
            DecimalCode(e, Strip(r.pad, idi), b);
          }
        } else {
          Ia5Longer(e, code, d, b);
        }
    }
  }

  lemma NotDigits(e: Afi, idi: string, dsp: string)
    requires !AllDigits(idi)
    ensures ParseForm(e, idi, dsp).None?
  {
  }

  lemma ReadingPad(e: Afi, code: string, r: Reading)
    requires ReadEntry(e, code) == Some(r)
    ensures r.pad.Some? ==> IsDigit(r.pad.value)
  {
  }

  lemma DspShape(mark: Mark, at: nat, dsp: string)
    requires (at + |dsp|) % 2 == 0
    ensures mark.MarkD? ==> DspGood(mark, at, dsp) == DecimalTail(dsp)
    ensures mark.MarkX? ==> DspGood(mark, at, dsp)
                            == (DspText(mark, at, dsp) != [] && (at % 2 == 1 ==> dsp[0] == 'f'))
    ensures mark.MarkL? ==> !DspGood(mark, at, dsp) && (at == 2 ==> DspText(mark, at, dsp) == dsp)
  {
  }

  /** The text of an IA5 DSP has a character per nibble, not per octet. */
  lemma Ia5Longer(e: Afi, code: string, d: string, b: seq<Octet>)
    requires e.ia5 == Some(code) && |code| == 2 && d != [] && 2 * |b| == 2 + |d|
    ensures ParseIa5(e, d) != Some(b)
  {
  }

  // ---------------------------------------------------------------- the loops

  /** The search for an AFI name. */
  method FindAfi(name: string) returns (r: Option<Afi>)
    requires Ascii(name)
    ensures r == Named(AFIS, name)
  {
    hide Same, AFIS;
    var k := 0;
    assert AFIS[0..] == AFIS;
    while k < |AFIS|
      invariant 0 <= k <= |AFIS|
      invariant Named(AFIS, name) == Named(AFIS[k..], name)
    {
      TableAscii(AFIS[k]);
      var d := Lexequ(AFIS[k].name, name);
      if d == 0 {
        return Some(AFIS[k]);
      }
      assert AFIS[k..][1..] == AFIS[k + 1..];
      k := k + 1;
    }
    r := None;
  }

  lemma TableAscii(e: Afi)
    requires e in AFIS
    ensures Ascii(e.name)
  {
    TablePlain(e);
  }

  /** idi_pad and the IDI behind it. */
  method PadIdi(code: string, idiLen: nat, idi: string, pad: char) returns (s: string)
    ensures s == code + Rep(pad, idiLen - |idi|) + idi
  {
    s := code;
    var n := idiLen;
    while n > |idi|
      invariant n <= idiLen || n <= |idi|
      invariant s + Rep(pad, n - |idi|) == code + Rep(pad, idiLen - |idi|)
    {
      RepStep(pad, n - |idi| - 1);
      Append(s, pad, Rep(pad, n - |idi| - 1));
      s := s + [pad];
      n := n - 1;
    }
    assert Rep(pad, n - |idi|) == [];
    assert s + [] == s;
    s := s + idi;
  }

  lemma Append(s: string, c: char, t: string)
    ensures s + [c] + t == s + ([c] + t)
  {
  }

  /** strcpy of an IA5 DSP. */
  method CharLoop(s: string) returns (r: Option<seq<Octet>>)
    ensures r == CharOctets(s)
  {
    var b: seq<Octet> := [];
    assert s[0..] == s;
    JoinEmpty(CharOctets(s));
    for i := 0 to |s|
      invariant CharOctets(s) == Join(b, CharOctets(s[i..]))
    {
      if s[i] as int > 255 {
        return None;
      }
      assert s[i..][1..] == s[i + 1..];
      JoinAssoc(b, [s[i] as int as Octet], CharOctets(s[i + 1..]));
      b := b + [s[i] as int as Octet];
    }
    assert b + [] == b;
    r := Some(b);
  }

  /** The DSP forms of an NSAP, from the AFI choice to the packed octets. */
  method ReadForm(e: Afi, idi: string, dsp: string) returns (r: Option<seq<Octet>>)
    requires AllDigits(idi) && (dsp == [] || dsp[0] == 'd' || dsp[0] == 'x' || dsp[0] == 'l')
    ensures r == ParseForm(e, idi, dsp)
  {
    hide Pack, Rep, Octets, CharOctets, AllDigits;
    if dsp != [] && dsp[0] == 'l' {
      if e.ia5.None? {
        return None;
      }
      var lead := PackLoop(e.ia5.value);
      var tail := CharLoop(dsp[1..]);
      r := if lead.None? then None else Fitting(Join(lead.value, tail));
    } else if dsp != [] && dsp[0] == 'x' {
      var (code, pad) := Choose(e.hex0, e.hex1, idi);
      var nsap := PadIdi(code, e.idiLen, idi, pad);
      var lead := PackLoop(nsap);
      var tail := ImplodeLoop(dsp[1..]);
      r := if lead.None? then None else Fitting(Join(lead.value, tail));
    } else {
      var (code, pad) := Choose(e.dec0, e.dec1, idi);
      var nsap := PadIdi(code, e.idiLen, idi, pad);
      var b := PackLoop(nsap + if dsp == [] then [] else dsp[1..]);
      r := Fitting(b);
    }
  }
}
