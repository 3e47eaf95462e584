/** Octets, decimal digits and hexadecimal text: the character-level codecs that both
    address codecs are built from (compat/explode.c, compat/implode.c, and the packing
    loops of compat/na2norm.c, compat/norm2na.c and compat/isoaddrs.c). */
module Digits {
  import opened Options

  type Octet = x: int | 0 <= x < 256

  /** What a loop holds that has b in hand and o still to come. */
  function Join<T>(b: seq<T>, o: Option<seq<T>>): Option<seq<T>> {
    if o.None? then None else Some(b + o.value)
  }

  lemma JoinEmpty<T>(o: Option<seq<T>>)
    ensures Join([], o) == o
  {
    assert o.Some? ==> [] + o.value == o.value;
  }

  lemma JoinAssoc<T>(a: seq<T>, b: seq<T>, o: Option<seq<T>>)
    ensures Join(a, Join(b, o)) == Join(a + b, o)
  {
    assert o.Some? ==> a + (b + o.value) == a + b + o.value;
  }

  predicate IsDigit(c: char) {
    '0' <= c <= '9'
  }

  predicate AllDigits(s: string) {
    forall i :: 0 <= i < |s| ==> IsDigit(s[i])
  }

  function DigitChar(d: int): char
    requires 0 <= d <= 9
  {
    (d + '0' as int) as char
  }

  function DigitVal(c: char): (d: nat)
    ensures d <= 9
  {
    if IsDigit(c) then c as int - '0' as int else 0
  }

  // ---------------------------------------------------------------- decimal numbers

  /** sprintf "%d" of a non-negative number. */
  function Dec(n: nat): (s: string)
    ensures 1 <= |s|
  {
    if n < 10 then [DigitChar(n)] else Dec(n / 10) + [DigitChar(n % 10)]
  }

  /** sprintf "%0wd" of a number that has at most w digits. */
  function Pad(n: nat, w: nat): (s: string)
    ensures |s| == w
  {
    if w == 0 then [] else Pad(n / 10, w - 1) + [DigitChar(n % 10)]
  }

  /** The number a digit string denotes (atoi, sscanf "%kd"). */
  function Val(s: string): nat {
    if s == [] then 0 else Val(s[..|s| - 1]) * 10 + DigitVal(s[|s| - 1])
  }

  lemma {:induction false} DecDigits(n: nat)
    ensures AllDigits(Dec(n))
    ensures n >= 10 ==> Dec(n)[0] != '0'
  {
    if n >= 10 {
      DecDigits(n / 10);
    }
  }

  lemma {:induction false} PadDigits(n: nat, w: nat)
    ensures AllDigits(Pad(n, w))
  {
    if w != 0 {
      PadDigits(n / 10, w - 1);
    }
  }

  lemma AllDigitsConcat(s: string, t: string)
    requires AllDigits(s) && AllDigits(t)
    ensures AllDigits(s + t)
  {
  }

  lemma {:induction false} ValDec(n: nat)
    ensures Val(Dec(n)) == n
  {
    if n >= 10 {
      ValDec(n / 10);
      assert Dec(n)[..|Dec(n)| - 1] == Dec(n / 10);
    }
  }

  function Pow10(w: nat): nat {
    if w == 0 then 1 else 10 * Pow10(w - 1)
  }

  lemma {:induction false} ValPad(n: nat, w: nat)
    requires n < Pow10(w)
    ensures Val(Pad(n, w)) == n
  {
    if w != 0 {
      ValPad(n / 10, w - 1);
      assert Pad(n, w)[..w - 1] == Pad(n / 10, w - 1);
    }
  }

  // ---------------------------------------------------------------- padding

  function Rep(c: char, n: int): (s: string)
    ensures |s| == if n < 0 then 0 else n
  {
    if n <= 0 then [] else [c] + Rep(c, n - 1)
  }

  function Strip(pad: Option<char>, s: string): (r: string)
    ensures r == [] || pad != Some(r[0])
  {
    if s != [] && pad == Some(s[0]) then Strip(pad, s[1..]) else s
  }

  lemma {:induction false} RepDigits(c: char, n: int)
    requires IsDigit(c)
    ensures AllDigits(Rep(c, n))
  {
    if n > 0 {
      RepDigits(c, n - 1);
    }
  }

  /** Stripping pad digits and putting them back. */
  lemma {:induction false} StripPad(pad: char, s: string)
    ensures |Strip(Some(pad), s)| <= |s|
    ensures Rep(pad, |s| - |Strip(Some(pad), s)|) + Strip(Some(pad), s) == s
    ensures Strip(Some(pad), s) == [] || Strip(Some(pad), s)[0] != pad
  {
    hide Rep;
    if s != [] && s[0] == pad {
      StripPad(pad, s[1..]);
      var t := Strip(Some(pad), s[1..]);
      assert Strip(Some(pad), s) == t;
      hide *;
      RepStep(pad, |s| - 1 - |t|);
      var r := Rep(pad, |s| - 1 - |t|);
      assert [pad] + r + t == [pad] + (r + t);
      assert s == [pad] + s[1..];
    } else {
      assert Strip(Some(pad), s) == s;
      hide *;
      assert Rep(pad, 0) + s == s;
    }
  }

  lemma RepStep(c: char, n: nat)
    ensures Rep(c, n + 1) == [c] + Rep(c, n)
  {
  }

  lemma {:induction false} StripDigits(pad: char, s: string)
    requires IsDigit(pad)
    ensures AllDigits(Strip(Some(pad), s)) <==> AllDigits(s)
  {
    if s != [] && s[0] == pad {
      StripDigits(pad, s[1..]);
      assert s == [pad] + s[1..];
      if AllDigits(s[1..]) {
        AllDigitsConcat([pad], s[1..]);
      }
    }
  }

  lemma StripNone(s: string)
    ensures Strip(None, s) == s
  {
  }

  // ---------------------------------------------------------------- nibble packing

  /** One octet out of two characters, as the packing loops compute it: the first
      character is shifted unmasked, the second is masked to four bits. */
  function PairOctet(hi: char, lo: char): int {
    (hi as int - '0' as int) * 16 + (lo as int - '0' as int) % 16
  }

  /** The trailing octet of an odd-length string: the low nibble is the pad 0xf. */
  function TailOctet(hi: char): int {
    (hi as int - '0' as int) * 16 + 15
  }

  /** Two characters per octet; None when an octet leaves 0..255, which int2octet refuses. */
  function Pack(s: string): (r: Option<seq<Octet>>)
    ensures r.Some? ==> |r.value| == (|s| + 1) / 2
  {
    if s == [] then Some([])
    else if |s| == 1 then
      if 0 <= TailOctet(s[0]) < 256 then Some([TailOctet(s[0]) as Octet]) else None
    else if 0 <= PairOctet(s[0], s[1]) < 256 then Join([PairOctet(s[0], s[1]) as Octet], Pack(s[2..]))
    else None
  }

  /** The digits of one octet: a low nibble 0xf is skipped, any other nibble above nine
      makes the encoding invalid. */
  function UnpackOctet(o: Octet): (r: Option<string>)
    ensures r.Some? ==> 1 <= |r.value| <= 2
  {
    var hi, lo := o / 16, o % 16;
    if hi > 9 || 9 < lo < 15 then None
    else if lo == 15 then Some([DigitChar(hi)])
    else Some([DigitChar(hi), DigitChar(lo)])
  }

  /** The decoder's loop; pad nibbles are skipped wherever they stand. */
  function Unpack(b: seq<Octet>): (r: Option<string>)
    ensures r.Some? ==> |b| <= |r.value| <= 2 * |b|
  {
    if b == [] then Some([])
    else
      var d := UnpackOctet(b[0]);
      if d.None? then None else Join(d.value, Unpack(b[1..]))
  }

  lemma UnpackPair(hi: char, lo: char)
    requires IsDigit(hi) && IsDigit(lo)
    ensures 0 <= PairOctet(hi, lo) < 256 && UnpackOctet(PairOctet(hi, lo)) == Some([hi, lo])
    ensures 0 <= TailOctet(hi) < 256 && UnpackOctet(TailOctet(hi)) == Some([hi])
  {
    assert PairOctet(hi, lo) / 16 == hi as int - '0' as int && PairOctet(hi, lo) % 16 == lo as int - '0' as int;
    assert TailOctet(hi) / 16 == hi as int - '0' as int && TailOctet(hi) % 16 == 15;
  }

  /** Decimal digits survive packing, whatever the parity of their number. */
  lemma {:induction false} UnpackPack(s: string)
    requires AllDigits(s)
    ensures Pack(s).Some? && Unpack(Pack(s).value) == Some(s)
  {
    hide PairOctet, TailOctet, UnpackOctet;
    if |s| == 1 {
      UnpackPair(s[0], s[0]);
      assert s == [s[0]] + [];
    } else if |s| >= 2 {
      var t := s[2..];
      UnpackPack(t);
      UnpackPair(s[0], s[1]);
      assert Pack(s).value[1..] == Pack(t).value;
      assert s == [s[0], s[1]] + t;
    }
  }

  /** The packing loop shared by na2norm and pack_dec_octets. */
  method PackLoop(s: string) returns (r: Option<seq<Octet>>)
    ensures r == Pack(s)
  {
    hide PairOctet, TailOctet;
    var b: seq<Octet> := [];
    var i := 0;
    assert s[0..] == s;
    JoinEmpty(Pack(s));
    while i < |s|
      invariant 0 <= i <= |s|
      invariant Pack(s) == Join(b, Pack(s[i..]))
    {
      if i + 1 < |s| {
        var octet := PairOctet(s[i], s[i + 1]);
        if octet < 0 || octet > 255 {
          return None;
        }
        assert s[i..][2..] == s[i + 2..];
        JoinAssoc(b, [octet as Octet], Pack(s[i + 2..]));
        b := b + [octet];
        i := i + 2;
      } else {
        var octet := TailOctet(s[i]);
        if octet < 0 || octet > 255 {
          return None;
        }
        b := b + [octet];
        i := i + 1;
        assert b + [] == b;
      }
    }
    assert b + [] == b;
    r := Some(b);
  }

  // ---------------------------------------------------------------- hexadecimal text

  function NibChar(n: int): (c: char)
    requires 0 <= n < 16
  {
    if n < 10 then DigitChar(n) else (n - 10 + 'a' as int) as char
  }

  predicate IsHex(c: char) {
    '0' <= c <= '9' || 'a' <= c <= 'f' || 'A' <= c <= 'F'
  }

  /** hex2nib: characters that are not hexadecimal count as zero. */
  function HexVal(c: char): (n: int)
    ensures 0 <= n < 16
  {
    if '0' <= c <= '9' then c as int - '0' as int
    else if 'a' <= c <= 'f' then c as int - 'a' as int + 10
    else if 'A' <= c <= 'F' then c as int - 'A' as int + 10
    else 0
  }

  /** explode: two lower-case hexadecimal characters per octet. */
  function Explode(b: seq<Octet>): (s: string)
    ensures |s| == 2 * |b|
  {
    if b == [] then [] else [NibChar(b[0] / 16), NibChar(b[0] % 16)] + Explode(b[1..])
  }

  predicate AllHex(s: string) {
    forall i :: 0 <= i < |s| ==> IsHex(s[i])
  }

  /** The IMPLODE macro: refuses non-hexadecimal characters and odd lengths. */
  function Implode(s: string): (r: Option<seq<Octet>>)
    ensures r.Some? <==> AllHex(s) && |s| % 2 == 0
    ensures r.Some? ==> |r.value| == |s| / 2
  {
    if AllHex(s) && |s| % 2 == 0 then Some(Octets(s)) else None
  }

  function Octets(s: string): (b: seq<Octet>)
    requires |s| % 2 == 0
    ensures |b| == |s| / 2
  {
    if s == [] then [] else [HexVal(s[0]) * 16 + HexVal(s[1])] + Octets(s[2..])
  }

  lemma {:induction false} ExplodeHex(b: seq<Octet>)
    ensures AllHex(Explode(b))
    ensures forall c :: c in Explode(b) ==> '0' <= c <= '9' || 'a' <= c <= 'f'
  {
    if b != [] {
      ExplodeHex(b[1..]);
    }
  }

  lemma {:induction false} OctetsExplode(b: seq<Octet>)
    ensures Octets(Explode(b)) == b
  {
    if b != [] {
      OctetsExplode(b[1..]);
      assert Explode(b)[2..] == Explode(b[1..]);
    }
  }

  /** implode undoes explode on every octet string. */
  lemma ImplodeExplode(b: seq<Octet>)
    ensures Implode(Explode(b)) == Some(b)
  {
    ExplodeHex(b);
    OctetsExplode(b);
  }

  lemma {:induction false} ExplodeConcat(a: seq<Octet>, b: seq<Octet>)
    ensures Explode(a + b) == Explode(a) + Explode(b)
  {
    if a == [] {
      assert a + b == b;
    } else {
      ExplodeConcat(a[1..], b);
      assert (a + b)[1..] == a[1..] + b;
    }
  }

  /** explode's loop, writing two characters per octet. */
  method ExplodeLoop(b: seq<Octet>) returns (a: string)
    ensures a == Explode(b)
  {
    a := [];
    var i := 0;
    while i < |b|
      invariant 0 <= i <= |b|
      invariant a == Explode(b[..i])
    {
      ExplodeConcat(b[..i], [b[i]]);
      assert b[..i + 1] == b[..i] + [b[i]];
      a := a + [NibChar(b[i] / 16), NibChar(b[i] % 16)];
      i := i + 1;
    }
    assert b[..i] == b;
  }

  lemma {:induction false} OctetsConcat(s: string, t: string)
    requires |s| % 2 == 0 && |t| % 2 == 0
    ensures Octets(s + t) == Octets(s) + Octets(t)
  {
    if s == [] {
      assert s + t == t;
    } else {
      OctetsConcat(s[2..], t);
      assert (s + t)[2..] == s[2..] + t;
    }
  }

  /** implode's loop behind the IMPLODE macro's checks. */
  method ImplodeLoop(s: string) returns (r: Option<seq<Octet>>)
    ensures r == Implode(s)
  {
    if !AllHex(s) || |s| % 2 != 0 {
      return None;
    }
    var a: seq<Octet> := [];
    var i := 0;
    while i < |s|
      invariant 0 <= i <= |s| && i % 2 == 0
      invariant a == Octets(s[..i])
    {
      OctetsConcat(s[..i], s[i..i + 2]);
      assert s[..i + 2] == s[..i] + s[i..i + 2];
      a := a + [HexVal(s[i]) * 16 + HexVal(s[i + 1])];
      i := i + 2;
    }
    assert s[..i] == s;
    r := Some(a);
  }

  lemma {:induction false} PackConcat(s: string, t: string)
    requires AllDigits(s) && |s| % 2 == 0
    ensures Pack(s).Some? && Pack(s + t) == Join(Pack(s).value, Pack(t))
  {
    hide PairOctet, TailOctet;
    if s == [] {
      assert s + t == t;
      JoinEmpty(Pack(t));
    } else {
      var u := s[2..];
      PackConcat(u, t);
      UnpackPair(s[0], s[1]);
      assert (s + t)[2..] == u + t;
      JoinAssoc([PairOctet(s[0], s[1]) as Octet], Pack(u).value, Pack(t));
    }
  }
}
