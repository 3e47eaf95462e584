/** Selectors as RFC 1278 lets a person write them: all four spellings that str2paddr takes,
    and the layers they are for.  The printer writes only two of them. */
module SelectorText {
  import opened Options
  import opened Digits
  import opened Addresses
  import opened Macros
  import opened NsapText
  import opened AddressText
  import opened PaddrText

  /** Text in double quotes, a number behind '#', hexadecimal in single quotes, or nothing. */
  datatype Spelling = Quoted(chars: string) | Numbered(digits: string) | Hexadecimal(hex: string) | Nothing

  function Spell(f: Spelling): string {
    match f
    case Quoted(chars) => ['"'] + chars + ['"']
    case Numbered(digits) => ['#'] + digits
    case Hexadecimal(hex) => ['\''] + hex + ['\'', 'H']
    case Nothing => ""
  }

  /** The spelling ends where it should. */
  predicate Closed(f: Spelling) {
    match f
    case Quoted(chars) => '"' !in chars
    case Numbered(digits) => AllDigits(digits)
    case Hexadecimal(hex) => '\'' !in hex
    case Nothing => true
  }

  function Lower(c: char): char {
    if 'A' <= c <= 'Z' then (c as int + 32) as char else c
  }

  function Lowered(s: string): (r: string)
    ensures |r| == |s|
  {
    if s == [] then [] else Lowered(s[..|s| - 1]) + [Lower(s[|s| - 1])]
  }

  /** The selector a spelling stands for, in RFC 1278's terms: the codes of fewer than 64
      characters, the two octets of a 16-bit number with the high one first, the octets of up
      to 128 hexadecimal digits in either case, or the empty selector. */
  predicate Means(f: Spelling, sel: Selector) {
    match f
    case Quoted(chars) => |chars| < 64 && |sel| == |chars| && forall i :: 0 <= i < |sel| ==> sel[i] == chars[i] as int
    case Numbered(digits) => |sel| == 2 && sel[0] as int * 256 + sel[1] == Val(digits)
    case Hexadecimal(hex) => |hex| <= 128 && Explode(sel) == Lowered(hex)
    case Nothing => sel == []
  }

  // ---------------------------------------------------------------- one selector

  lemma {:induction false} CodesRead(chars: string)
    ensures CharOctets(chars).Some? <==> forall i :: 0 <= i < |chars| ==> chars[i] as int < 256
    ensures CharOctets(chars).Some? ==>
              var b := CharOctets(chars).value;
              |b| == |chars| && forall i :: 0 <= i < |b| ==> b[i] == chars[i] as int
  {
    if chars != [] {
      CodesRead(chars[1..]);
      assert forall i :: 1 <= i < |chars| ==> chars[i] == chars[1..][i - 1];
    }
  }

  lemma {:induction false} LoweredFront(s: string)
    requires s != []
    ensures Lowered(s) == [Lower(s[0])] + Lowered(s[1..])
  {
    if |s| > 1 {
      LoweredFront(s[..|s| - 1]);
      assert s[1..][..|s| - 2] == s[..|s| - 1][1..];
    }
  }

  lemma NibOfAny(c: char)
    requires IsHex(c)
    ensures NibChar(HexVal(c)) == Lower(c)
  {
  }

  /** Hexadecimal text of an even length, in either case, is the octets that print as it. */
  lemma {:induction false} OctetsRead(hex: string)
    requires AllHex(hex) && |hex| % 2 == 0
    ensures Explode(Octets(hex)) == Lowered(hex)
  {
    hide NibChar, HexVal, IsHex;
    ExplodeCons(0, []);
    if hex != [] {
      assert AllHex(hex[2..]);
      OctetsRead(hex[2..]);
      NibOfAny(hex[0]);
      NibOfAny(hex[1]);
      LoweredFront(hex);
      LoweredFront(hex[1..]);
      assert hex[1..][1..] == hex[2..];
      var o := HexVal(hex[0]) * 16 + HexVal(hex[1]);
      assert o / 16 == HexVal(hex[0]) && o % 16 == HexVal(hex[1]);
      ExplodeCons(o, Octets(hex[2..]));
    }
  }

  lemma {:induction false} LoweredHex(hex: string)
    ensures LowerHex(Lowered(hex)) ==> AllHex(hex)
  {
    if hex != [] {
      var n := |hex| - 1;
      LoweredHex(hex[..n]);
      assert hex == hex[..n] + [hex[n]];
      assert LowerHex(Lowered(hex)) ==> LowerHex(Lowered(hex)[..n]) && LowerHex([Lowered(hex)[n]]);
      assert Lowered(hex)[..n] == Lowered(hex[..n]);
      LastHex(hex, n);
    }
  }

  lemma LastHex(hex: string, n: nat)
    requires n < |hex| && Lowered(hex)[n] == Lower(hex[n])
    ensures LowerHex(Lowered(hex)) ==> IsHex(hex[n])
  {
    var c := Lowered(hex)[n];
    assert LowerHex(Lowered(hex)) ==> '0' <= c <= '9' || 'a' <= c <= 'f';
  }

  lemma NumberRead(digits: string, t: string)
    requires AllDigits(digits) && (t == [] || !IsDigit(t[0]))
    ensures TakeSel(['#'] + digits + t)
         == if Val(digits) > 65535 then None else Some(([Val(digits) / 256, Val(digits) % 256], t))
  {
    var s := ['#'] + digits + t;
    assert s[1..] == digits + t;
    LeadingStops(digits, t);
    hide Val, LeadingDigits;
    assert (digits + t)[|digits|..] == t;
  }

  lemma {:induction false} LeadingStops(digits: string, t: string)
    requires AllDigits(digits) && (t == [] || !IsDigit(t[0]))
    ensures LeadingDigits(digits + t) == digits
  {
    if digits == [] {
      assert digits + t == t;
    } else {
      LeadingStops(digits[1..], t);
      assert (digits + t)[1..] == digits[1..] + t;
    }
  }

  /** What a selector that is taken stands for, and that nothing is taken that stands for
      nothing. */
  ghost predicate TakenFor(f: Spelling, r: Option<(Selector, string)>, rest: string) {
    match r
    case Some(one) => Means(f, one.0) && one.1 == rest
    case None => forall sel :: !Means(f, sel)
  }

  /** One spelling in front of a '/': str2paddr takes it for the selector it stands for if there
      is one, and refuses it otherwise. */
  lemma SpellingRead(f: Spelling, t: string)
    requires Closed(f)
    ensures var s := Spell(f) + ("/" + t);
            s != [] && SelStart(s[0]) && TakenFor(f, TakeSel(s), "/" + t)
  {
    match f {
      case Quoted(chars) => QuotedRead(chars, t);
      case Numbered(digits) => NumberedRead(digits, t);
      case Hexadecimal(hex) => HexadecimalRead(hex, t);
      case Nothing => assert Spell(f) + ("/" + t) == "/" + t;
    }
  }

  lemma QuotedRead(chars: string, t: string)
    requires '"' !in chars
    ensures var s := ['"'] + chars + ['"'] + ("/" + t);
            TakenFor(Quoted(chars), TakeSel(s), "/" + t)
  {
    CodesRead(chars);
    if CharOctets(chars).Some? {
      TakeQuoted(chars, "/" + t);
    } else {
      Unquoted(chars, "/" + t);
      var i :| 0 <= i < |chars| && chars[i] as int >= 256;
      assert forall sel: Selector :: |sel| == |chars| ==> sel[i] < 256;
    }
  }

  lemma Unquoted(chars: string, t: string)
    requires '"' !in chars && CharOctets(chars).None?
    ensures TakeSel(['"'] + chars + ['"'] + t).None?
  {
    var u := chars + ['"'] + t;
    QuoteFirst(u);
    CutAt(chars, '"', t);
    assert ['"'] + chars + ['"'] + t == ['"'] + u;
    hide CharOctets, Before, After, Has, TakeSel;
  }

  lemma NumberedRead(digits: string, t: string)
    requires AllDigits(digits)
    ensures TakenFor(Numbered(digits), TakeSel(['#'] + digits + ("/" + t)), "/" + t)
  {
    NumberRead(digits, "/" + t);
    hide Val, TakeSel;
  }

  lemma HexadecimalRead(hex: string, t: string)
    requires '\'' !in hex
    ensures TakenFor(Hexadecimal(hex), TakeSel(['\''] + hex + ['\'', 'H'] + ("/" + t)), "/" + t)
  {
    if Implode(hex).Some? {
      OctetsRead(hex);
      TakeHex(hex, "/" + t);
    } else {
      Unhex(hex, "/" + t);
      LoweredHex(hex);
      forall sel: Selector
        ensures !Means(Hexadecimal(hex), sel)
      {
        ExplodeLower(sel);
        hide Explode, Lowered;
      }
    }
  }

  lemma Unhex(hex: string, t: string)
    requires '\'' !in hex && Implode(hex).None?
    ensures TakeSel(['\''] + hex + ['\'', 'H'] + t).None?
  {
    var s := ['\''] + hex + ['\'', 'H'] + t;
    var rest := ['H'] + t;
    CutAt(hex, '\'', rest);
    hide Implode, IndexOf, Before, After, Has;
    assert s[1..] == hex + ['\''] + rest;
  }

  /** A number of any size in front of a '/'. */
  lemma NumberSelector(n: nat, t: string)
    ensures var r := TakeSel("#" + Dec(n) + "/" + t);
            if n <= 65535 then
              r.Some? && |r.value.0| == 2 && r.value.0[0] as int * 256 + r.value.0[1] == n && r.value.1 == "/" + t
            else r.None?
  {
    DecDigits(n);
    ValDec(n);
    NumberRead(Dec(n), "/" + t);
    hide Dec, Val, TakeSel;
    assert "#" + Dec(n) + "/" + t == ['#'] + Dec(n) + ("/" + t);
  }

  // ---------------------------------------------------------------- all selectors

  function SpellAll(fs: seq<Spelling>): string {
    if fs == [] then "" else Spell(fs[0]) + ("/" + SpellAll(fs[1..]))
  }

  /** The selectors taken for these spellings, one by one. */
  predicate EachMeans(fs: seq<Spelling>, sels: seq<Selector>) {
    |sels| == |fs| && forall i :: 0 <= i < |fs| ==> Means(fs[i], sels[i])
  }

  ghost predicate AllTakenFor(fs: seq<Spelling>, r: Option<(seq<Selector>, string)>, rest: string) {
    match r
    case Some(taken) => EachMeans(fs, taken.0) && taken.1 == rest
    case None => exists f :: f in fs && forall sel :: !Means(f, sel)
  }

  lemma {:induction false} SpellingsRead(k: nat, fs: seq<Spelling>, t: string)
    requires |fs| <= k && Stops(t) && forall f :: f in fs ==> Closed(f)
    ensures AllTakenFor(fs, TakeSels(k, SpellAll(fs) + t), t)
  {
    hide *;
    if fs == [] {
      NoSpelling(k, t);
    } else {
      assert fs[0] in fs && forall f :: f in fs[1..] ==> f in fs;
      SpellingsRead(k - 1, fs[1..], t);
      SpellSplit(fs, t);
      NextTaken(k, fs, SpellAll(fs) + t, SpellAll(fs[1..]) + t, t);
    }
  }

  lemma NoSpelling(k: nat, t: string)
    requires Stops(t)
    ensures AllTakenFor([], TakeSels(k, SpellAll([]) + t), t)
  {
    TakeNone(k, t);
    assert "" + t == t;
  }

  lemma NextTaken(k: nat, fs: seq<Spelling>, s: string, rest: string, t: string)
    requires k > 0 && fs != [] && Closed(fs[0]) && s == Spell(fs[0]) + ("/" + rest)
    requires AllTakenFor(fs[1..], TakeSels(k - 1, rest), t)
    ensures AllTakenFor(fs, TakeSels(k, s), t)
  {
    SpellingRead(fs[0], rest);
    hide TakeSel, TakeSels, Spell, Means, AllTakenFor, Closed, SelStart;
    TakenStep(k, s, rest);
    AllTakenStep(fs, TakeSel(s), TakeSels(k - 1, rest), "/" + rest, t);
  }

  lemma AllTakenStep(fs: seq<Spelling>, one: Option<(Selector, string)>, more: Option<(seq<Selector>, string)>,
                     behind: string, rest: string)
    requires fs != [] && TakenFor(fs[0], one, behind) && AllTakenFor(fs[1..], more, rest)
    ensures AllTakenFor(fs, if one.None? || more.None? then None
                            else Some(([one.value.0] + more.value.0, more.value.1)), rest)
  {
    hide Means;
    assert fs[0] in fs && forall f :: f in fs[1..] ==> f in fs;
    if one.Some? && more.Some? {
      assert forall i :: 1 <= i < |fs| ==> fs[i] == fs[1..][i - 1];
    } else if one.Some? {
      var f :| f in fs[1..] && forall sel :: !Means(f, sel);
      assert f in fs;
    }
  }

  lemma SpellSplit(fs: seq<Spelling>, t: string)
    requires fs != []
    ensures SpellAll(fs) + t == Spell(fs[0]) + ("/" + (SpellAll(fs[1..]) + t))
  {
    hide Spell;
    Assoc(Spell(fs[0]), "/" + SpellAll(fs[1..]), t);
    Assoc("/", SpellAll(fs[1..]), t);
  }

  lemma TakenStep(k: nat, s: string, rest: string)
    requires k > 0 && s != [] && SelStart(s[0]) && (TakeSel(s).Some? ==> TakeSel(s).value.1 == "/" + rest)
    ensures var one, more := TakeSel(s), TakeSels(k - 1, rest);
            TakeSels(k, s)
            == if one.None? || more.None? then None else Some(([one.value.0] + more.value.0, more.value.1))
  {
    hide TakeSel, SelStart;
    assert ("/" + rest)[1..] == rest;
  }

  /** The selectors behind the first spellings go to the lowest layers: the last to the
      transport, the one before it to the session, the one before that to the presentation. */
  predicate Layered(fs: seq<Spelling>, a: Paddr) {
    var n := |fs|;
    && (if n >= 1 then Means(fs[n - 1], a.tsel) else a.tsel == [])
    && (if n >= 2 then Means(fs[n - 2], a.ssel) else a.ssel == [])
    && (if n >= 3 then Means(fs[n - 3], a.psel) else a.psel == [])
  }

  /** Up to three selectors in any spelling, in front of any list of addresses that does not
      start like a selector: the text is a presentation address if and only if the list is one
      and every spelling stands for a selector, and then it has the addresses of the list and
      those selectors; but a list of more than eight addresses loses them. */
  lemma SelectorsRead(table: seq<Community>, book: seq<Macro>, fs: seq<Spelling>, t: string)
    requires |fs| <= 3 && Stops(t) && forall f :: f in fs ==> Closed(f)
    ensures var r, q := ParsePaddr(table, book, SpellAll(fs) + t), ParsePaddr(table, book, t);
            && (r.Some? <==> q.Some? && forall f :: f in fs ==> exists sel :: Means(f, sel))
            && (r.Some? ==> r.value.addrs == q.value.addrs
                            && Layered(if ParseList(table, book, 0, t).Full? then [] else fs, r.value))
  {
    SpellingsRead(3, fs, t);
    TakeNone(3, t);
    hide TakeSels, ParseList, Means, SpellAll, Stops;
    var sels := TakeSels(3, SpellAll(fs) + t);
    if sels.Some? {
      forall f | f in fs
        ensures exists sel :: Means(f, sel)
      {
        var i :| 0 <= i < |fs| && fs[i] == f;
        assert Means(f, sels.value.0[i]);
      }
    }
  }

  // ---------------------------------------------------------------- printing

  /** The spelling the printer chooses. */
  function Chosen(sel: Selector): Spelling {
    if sel == [] then Nothing
    else if forall i :: 0 <= i < |sel| ==> Quotable(sel[i]) then Quoted(CharsOf(sel)) else Hexadecimal(Explode(sel))
  }

  /** Selectors are printed from the highest layer that has one, in quotes when every octet is
      a letter, a digit or one of the signs that may be quoted, and in hexadecimal otherwise. */
  lemma SelectorsPrinted(a: Paddr)
    ensures SelsText(a)
         == SpellAll(if a.psel != [] then [Chosen(a.psel), Chosen(a.ssel), Chosen(a.tsel)]
                     else if a.ssel != [] then [Chosen(a.ssel), Chosen(a.tsel)]
                     else if a.tsel != [] then [Chosen(a.tsel)] else [])
  {
    SpellChosen(a.psel);
    SpellChosen(a.ssel);
    SpellChosen(a.tsel);
    var p, q, r := Spell(Chosen(a.psel)), Spell(Chosen(a.ssel)), Spell(Chosen(a.tsel));
    SpellUp(Chosen(a.psel), Chosen(a.ssel), Chosen(a.tsel));
    hide Spell, Chosen, SelText, SpellAll;
    if a.psel != [] {
      Nest3(p, q, r, "");
      assert SelsText(a) + "" == SelsText(a);
    } else if a.ssel != [] {
      Nest2(q, r, "");
      assert SelsText(a) + "" == SelsText(a);
    }
  }

  lemma SpellChosen(sel: Selector)
    ensures Spell(Chosen(sel)) == SelText(sel)
  {
    assert "\"" == ['"'] && "'" == ['\''] && "'H" == ['\'', 'H'];
    hide CharsOf, Explode, Quotable;
  }

  lemma SpellUp(f: Spelling, g: Spelling, h: Spelling)
    ensures SpellAll([]) == "" && SpellAll([h]) == Spell(h) + "/"
    ensures SpellAll([g, h]) == Spell(g) + ("/" + (Spell(h) + ("/" + "")))
    ensures SpellAll([f, g, h]) == Spell(f) + ("/" + (Spell(g) + ("/" + (Spell(h) + ("/" + "")))))
  {
    hide Spell;
    assert [h][1..] == [] && [g, h][1..] == [h] && [f, g, h][1..] == [g, h];
    assert "/" + "" == "/";
  }

  /** An address can be printed when its community is known and has a macro, and an NSAP is not
      shorter than its own AFI and IDI. */
  predicate Printable(table: seq<Community>, a: NetAddr) {
    var own := Own(table, a.community);
    own.Some? && own.value.value.Some?
    && (a.NsapAddr? ==> var r := ReadOctets(a.address); r.Some? ==> 2 * |a.address| >= 2 + r.value.entry.idiLen)
  }

  /** The printer gives up only on an empty address and on one with an address in it that
      cannot be printed. */
  lemma PrintsWhen(table: seq<Community>, a: Paddr, marks: seq<Option<Macro>>)
    requires |marks| == |a.addrs|
    ensures PrintPaddr(table, a, marks).Some?
            <==> AllPrintable(table, a.addrs) && !(a.addrs == [] && a.psel == [] && a.ssel == [] && a.tsel == [])
  {
    TextsWhen(table, a.addrs, marks);
    SelsBack(a, "");
    hide Texts, Printable, AllPrintable, TakeSels, SelsText;
  }

  predicate AllPrintable(table: seq<Community>, addrs: seq<NetAddr>) {
    forall i :: 0 <= i < |addrs| ==> Printable(table, addrs[i])
  }

  lemma {:induction false} TextsWhen(table: seq<Community>, addrs: seq<NetAddr>, marks: seq<Option<Macro>>)
    requires |marks| == |addrs|
    ensures Texts(table, addrs, marks).Some? <==> AllPrintable(table, addrs)
  {
    if addrs != [] {
      var n := |addrs| - 1;
      TextsWhen(table, addrs[..n], marks[..n]);
      NetTextWhen(table, addrs[n]);
      TextsGrow(table, addrs, marks);
      PrintableGrow(table, addrs);
      hide NetText, Printable, Texts, AllPrintable;
    }
  }

  lemma PrintableGrow(table: seq<Community>, addrs: seq<NetAddr>)
    requires addrs != []
    ensures var n := |addrs| - 1;
            AllPrintable(table, addrs) <==> AllPrintable(table, addrs[..n]) && Printable(table, addrs[n])
  {
    var n := |addrs| - 1;
    hide Printable;
    assert forall i :: 0 <= i < n ==> addrs[..n][i] == addrs[i];
  }

  lemma TextsGrow(table: seq<Community>, addrs: seq<NetAddr>, marks: seq<Option<Macro>>)
    requires |marks| == |addrs| && addrs != []
    ensures var n := |addrs| - 1;
            Texts(table, addrs, marks).Some?
            <==> Texts(table, addrs[..n], marks[..n]).Some? && NetText(table, addrs[n]).Some?
  {
    hide NetText, Shown;
  }

  lemma NetTextWhen(table: seq<Community>, a: NetAddr)
    ensures NetText(table, a).Some? <==> Printable(table, a)
  {
    hide ReadOctets, FormText;
  }
}
