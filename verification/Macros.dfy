/** The macro and alias tables (compat/isoaddrs.c, acsap/isoalias.c): chained hash buckets
    searched ignoring case (compat/lexequ.c), and the abbreviation of address text. */
module Macros {
  import opened Options
  import opened Digits
  import opened Addresses

  const BUCKETS := 128

  datatype Macro = Macro(name: string, value: string)

  /** chrcnv: lower case letters become upper case, anything else stays. */
  function Fold(c: char): (r: char)
    ensures c as int < 128 ==> r as int < 128
    ensures c as int > 0 <==> r as int > 0
  {
    if 'a' <= c <= 'z' then (c as int - 'a' as int + 'A' as int) as char else c
  }

  /** C text of seven-bit characters. */
  predicate Ascii(s: string) {
    forall i :: 0 <= i < |s| ==> 0 < s[i] as int < 128
  }

  predicate Same(a: string, b: string) {
    |a| == |b| && forall i :: 0 <= i < |a| ==> Fold(a[i]) == Fold(b[i])
  }

  /** The folded character at i, the terminator behind the last one. */
  function Code(s: string, i: nat): nat {
    if i < |s| then Fold(s[i]) as int else 0
  }

  predicate FirstDifference(a: string, b: string, k: nat) {
    k <= |a| && k <= |b| && Code(a, k) != Code(b, k) && forall j: nat :: j < k ==> Code(a, j) == Code(b, j)
  }

  /** lexequ: zero exactly for texts that are the same ignoring case, otherwise the order
      of the first characters that differ. */
  method Lexequ(a: string, b: string) returns (r: int)
    requires Ascii(a) && Ascii(b)
    ensures r == 0 <==> Same(a, b)
    ensures r != 0 ==> exists k: nat :: FirstDifference(a, b, k) && (r > 0 <==> Code(a, k) > Code(b, k))
  {
    var i: nat := 0;
    while Code(a, i) == Code(b, i)
      invariant i <= |a| && i <= |b|
      invariant forall j :: 0 <= j < i ==> Code(a, j) == Code(b, j)
      decreases |a| - i
    {
      if i == |a| {
        assert i == |b|;
        forall j | 0 <= j < |a|
          ensures Fold(a[j]) == Fold(b[j])
        {
          assert Code(a, j) == Code(b, j);
        }
        return 0;
      }
      i := i + 1;
    }
    r := if Code(a, i) > Code(b, i) then 1 else -1;
    assert FirstDifference(a, b, i);
    if Same(a, b) {
      assert false;
    }
  }

  // ---------------------------------------------------------------- the hash

  /** x & 0x5f for seven-bit x: bit 5 is cleared. */
  function Mask5f(x: nat): nat {
    x % 32 + x / 64 * 64
  }

  /** MHASH and PHASH. */
  function Hash(name: string): nat {
    if |name| >= 2 then (Code(name, 0) - Code(name, 1)) % 32 + Mask5f(Code(name, 2))
    else Code(name, 0) % 128
  }

  /** The hash stays inside the table and does not see the case of letters. */
  lemma HashInside(name: string)
    requires Ascii(name)
    ensures Hash(name) < BUCKETS
  {
    assert Code(name, 2) < 128;
    assert Mask5f(Code(name, 2)) <= 31 + 64;
  }

  lemma HashFolds(a: string, b: string)
    requires Same(a, b)
    ensures Hash(a) == Hash(b)
  {
    assert Code(a, 0) == Code(b, 0) && Code(a, 1) == Code(b, 1) && Code(a, 2) == Code(b, 2);
  }

  // ---------------------------------------------------------------- what the table means

  /** Linear scan of the bindings, newest first. */
  function Lookup(book: seq<Macro>, name: string): (r: Option<Macro>)
    ensures r.Some? ==> r.value in book && Same(r.value.name, name)
    ensures r.None? ==> forall m :: m in book ==> !Same(m.name, name)
  {
    if book == [] then None
    else if Same(book[0].name, name) then Some(book[0])
    else Lookup(book[1..], name)
  }

  /** The chain of bucket b when these bindings were pushed, newest first. */
  function Chain(book: seq<Macro>, b: nat): (r: seq<Macro>)
    ensures forall m :: m in r <==> m in book && Hash(m.name) == b
  {
    if book == [] then []
    else (if Hash(book[0].name) == b then [book[0]] else []) + Chain(book[1..], b)
  }

  /** Searching one bucket finds what a scan of everything finds. */
  lemma {:induction false} ChainSearch(book: seq<Macro>, name: string)
    ensures Lookup(Chain(book, Hash(name)), name) == Lookup(book, name)
  {
    if book != [] {
      var rest := Chain(book[1..], Hash(name));
      ChainSearch(book[1..], name);
      if Hash(book[0].name) == Hash(name) {
        assert Chain(book, Hash(name)) == [book[0]] + rest;
        assert Chain(book, Hash(name))[1..] == rest;
      } else {
        if Same(book[0].name, name) {
          HashFolds(book[0].name, name);
        }
        assert [] + rest == rest;
      }
    }
  }

  /** add_macro's value: "name=rest" stands for the value of that macro followed by rest;
      None when there is no such macro. */
  function Resolve(book: seq<Macro>, value: string): Option<string> {
    if !Has(value, '=') then Some(value)
    else
      var m := Lookup(book, Before(value, '='));
      if m.None? then None else Some(m.value.value + After(value, '='))
  }

  /** add_macro: a reference to a missing macro adds nothing. */
  function Added(book: seq<Macro>, name: string, value: string): seq<Macro> {
    var v := Resolve(book, value);
    if v.None? then book else [Macro(name, v.value)] + book
  }

  /** A macro whose value the printer may replace at the front of text. */
  predicate Fits(m: Macro, text: string) {
    m.value != [] && Prefix(m.value, text)
  }

  ghost predicate LongestFit(book: seq<Macro>, text: string, r: Option<Macro>) {
    && (r.Some? ==> r.value in book && Fits(r.value, text))
    && (forall m :: m in book && Fits(m, text) ==> r.Some? && |m.value| <= |r.value.value|)
  }

  class MacroTable {
    const buckets: array<seq<Macro>>
    ghost var book: seq<Macro>

    ghost predicate Valid()
      reads this, buckets
    {
      && buckets.Length == BUCKETS
      && (forall b :: 0 <= b < BUCKETS ==> buckets[b] == Chain(book, b))
      && (forall m :: m in book ==> Ascii(m.name) && Ascii(m.value))
    }

    constructor ()
      ensures Valid() && fresh(buckets) && book == []
    {
      buckets := new seq<Macro>[BUCKETS](_ => []);
      book := [];
    }

    /** name2macro and alias2name. */
    method Find(name: string) returns (r: Option<Macro>)
      requires Valid() && Ascii(name)
      ensures r == Lookup(book, name)
    {
      HashInside(name);
      var chain := buckets[Hash(name)];
      ChainSearch(book, name);
      var i := 0;
      while i < |chain|
        invariant 0 <= i <= |chain|
        invariant Lookup(chain[i..], name) == Lookup(chain, name)
      {
        var d := Lexequ(chain[i].name, name);
        if d == 0 {
          return Some(chain[i]);
        }
        assert chain[i..][1..] == chain[i + 1..];
        i := i + 1;
      }
      r := None;
    }

    /** The push at the end of add_macro and add_alias. */
    method Push(name: string, value: string)
      requires Valid() && Ascii(name) && Ascii(value)
      modifies this, buckets
      ensures Valid() && book == [Macro(name, value)] + old(book)
    {
      HashInside(name);
      var m := Macro(name, value);
      buckets[Hash(name)] := [m] + buckets[Hash(name)];
      book := [m] + book;
      forall b | 0 <= b < BUCKETS
        ensures buckets[b] == Chain(book, b)
      {
        assert book[1..] == old(book);
        assert [] + Chain(old(book), b) == Chain(old(book), b);
      }
    }

    /** add_macro. */
    method AddMacro(name: string, value: string)
      requires Valid() && Ascii(name) && Ascii(value)
      modifies this, buckets
      ensures Valid() && book == Added(old(book), name, value)
    {
      if !Has(value, '=') {
        Push(name, value);
      } else {
        var m := Find(Before(value, '='));
        if m.Some? {
          Push(name, m.value.value + After(value, '='));
        }
      }
    }

    /** value2macro: every chain is walked, the longest value that starts the text wins. */
    method FindValue(text: string) returns (r: Option<Macro>)
      requires Valid()
      ensures LongestFit(book, text, r)
    {
      r := None;
      var n := 0;
      for b := 0 to BUCKETS
        invariant n == (if r.Some? then |r.value.value| else 0)
        invariant r.Some? ==> r.value in book && Fits(r.value, text)
        invariant forall m :: m in book && Hash(m.name) < b && Fits(m, text) ==> r.Some? && |m.value| <= n
      {
        var chain := buckets[b];
        for i := 0 to |chain|
          invariant n == (if r.Some? then |r.value.value| else 0)
          invariant r.Some? ==> r.value in book && Fits(r.value, text)
          invariant forall m :: m in book && Hash(m.name) < b && Fits(m, text) ==> r.Some? && |m.value| <= n
          invariant forall k :: 0 <= k < i && Fits(chain[k], text) ==> r.Some? && |chain[k].value| <= n
        {
          assert chain[i] in chain;
          if Prefix(chain[i].value, text) && |chain[i].value| > n {
            r := Some(chain[i]);
            n := |chain[i].value|;
          }
        }
        forall m | m in book && Hash(m.name) < b + 1 && Fits(m, text)
          ensures r.Some? && |m.value| <= n
        {
          if Hash(m.name) == b {
            assert m in chain;
          }
        }
      }
      forall m | m in book && Fits(m, text)
        ensures r.Some? && |m.value| <= n
      {
        HashInside(m.name);
      }
    }
  }

  // ---------------------------------------------------------------- abbreviation

  /** The end of _paddr2str: the longest value gives way to the macro's name. */
  function Abbreviate(m: Option<Macro>, text: string): string
    requires m.Some? ==> Fits(m.value, text)
  {
    if m.None? then text else m.value.name + "=" + text[|m.value.value|..]
  }

  /** The '=' handling of str2paddr. */
  function Expand(book: seq<Macro>, text: string): Option<string> {
    Resolve(book, text)
  }

  ghost predicate DistinctNames(book: seq<Macro>) {
    forall i, j :: 0 <= i < j < |book| ==> !Same(book[i].name, book[j].name)
  }

  lemma {:induction false} LookupDistinct(book: seq<Macro>, m: Macro)
    requires DistinctNames(book) && m in book
    ensures Lookup(book, m.name) == Some(m)
  {
    if book[0] != m {
      var k :| 0 <= k < |book| && book[k] == m;
      assert k > 0 && !Same(book[0].name, book[k].name);
      assert book[1..][k - 1] == m;
      assert forall i, j :: 0 <= i < j < |book[1..]| ==> book[1..][i] == book[i + 1] && book[1..][j] == book[j + 1];
      LookupDistinct(book[1..], m);
    }
  }

  /** Expanding an abbreviated text gives the text back exactly when the newest binding of
      the chosen name carries the chosen value; the text itself and the names hold no '='. */
  lemma ExpandAbbreviate(book: seq<Macro>, m: Option<Macro>, text: string)
    requires LongestFit(book, text, m) && '=' !in text && (m.Some? ==> '=' !in m.value.name)
    ensures Expand(book, Abbreviate(m, text)) == Some(text)
            <==> (m.Some? ==> Lookup(book, m.value.name).value.value == m.value.value)
  {
    if m.None? {
      CutNone(text, '=');
    } else {
      var rest := text[|m.value.value|..];
      CutAt(m.value.name, '=', rest);
      assert text == m.value.value + rest;
      var v := Lookup(book, m.value.name).value.value;
      if v + rest == m.value.value + rest {
        assert |v| == |m.value.value|;
        assert v == (v + rest)[..|v|];
      }
    }
  }

  /** With names distinct ignoring case, abbreviation is always undone. */
  lemma AbbreviationUndone(book: seq<Macro>, m: Option<Macro>, text: string)
    requires DistinctNames(book) && LongestFit(book, text, m)
    requires '=' !in text && (m.Some? ==> '=' !in m.value.name)
    ensures Expand(book, Abbreviate(m, text)) == Some(text)
  {
    if m.Some? {
      LookupDistinct(book, m.value);
    }
    ExpandAbbreviate(book, m, text);
  }

  /** A redefined name: the printer may choose the hidden binding, and the text changes. */
  lemma RedefinitionBreaks()
    ensures var book := [Macro("Lan", "NS+49"), Macro("LAN", "NS+4901")];
            var m := Some(book[1]);
            LongestFit(book, "NS+490155", m) && Abbreviate(m, "NS+490155") == "LAN=55"
            && Expand(book, "LAN=55") == Some("NS+4955")
  {
    var book := [Macro("Lan", "NS+49"), Macro("LAN", "NS+4901")];
    var text := "NS+490155";
    assert "NS+49" == text[..5] && "NS+4901" == text[..7];
    assert text[7..] == "55" && "LAN" + "=" + "55" == "LAN=55";
    assert LongestFit(book, text, Some(book[1]));
    var s := "LAN" + ['='] + "55";
    CutAt("LAN", '=', "55");
    assert s == "LAN=55";
    assert Same("Lan", "LAN");
    assert Lookup(book, "LAN") == Some(book[0]);
    assert "NS+49" + "55" == "NS+4955";
  }

  // ---------------------------------------------------------------- definitions

  /** What a definition does to every later search: a plain value is what the name stands for
      from then on, in any case; all other names stay as they are. */
  lemma PlainDefinition(book: seq<Macro>, name: string, value: string, other: string)
    requires '=' !in value
    ensures Lookup(Added(book, name, value), other)
         == if Same(name, other) then Some(Macro(name, value)) else Lookup(book, other)
  {
    CutNone(value, '=');
    assert ([Macro(name, value)] + book)[1..] == book;
  }

  /** A value that refers to a macro: the name stands for that macro's value at the time of
      the definition and the rest; and for nothing new when there is no such macro. */
  lemma ReferringDefinition(book: seq<Macro>, name: string, to: string, rest: string, other: string)
    requires '=' !in to
    ensures Lookup(Added(book, name, to + ['='] + rest), other)
         == if Same(name, other) && Lookup(book, to).Some?
            then Some(Macro(name, Lookup(book, to).value.value + rest)) else Lookup(book, other)
  {
    CutAt(to, '=', rest);
    var m := Lookup(book, to);
    if m.Some? {
      assert ([Macro(name, m.value.value + rest)] + book)[1..] == book;
    }
  }

  /** The definitions of a file, in order. */
  function Defined(book: seq<Macro>, defs: seq<(string, string)>): seq<Macro> {
    if defs == [] then book
    else
      var n := |defs| - 1;
      Added(Defined(book, defs[..n]), defs[n].0, defs[n].1)
  }

  /** At most one reference. */
  predicate Single(value: string) {
    '=' !in After(value, '=')
  }

  /** Whatever the order of the definitions, and whatever is missing or defined twice: when no
      value has more than one reference, no value in the table has any left. */
  lemma {:induction false} NoReferenceLeft(book: seq<Macro>, defs: seq<(string, string)>)
    requires forall m :: m in book ==> '=' !in m.value
    requires forall d :: d in defs ==> Single(d.1)
    ensures forall m :: m in Defined(book, defs) ==> '=' !in m.value
  {
    if defs != [] {
      var n := |defs| - 1;
      assert forall d :: d in defs[..n] ==> d in defs;
      NoReferenceLeft(book, defs[..n]);
      var old', value := Defined(book, defs[..n]), defs[n].1;
      assert defs[n] in defs;
      hide After, Lookup;
      if Has(value, '=') {
        var m := Lookup(old', Before(value, '='));
        if m.Some? {
          assert '=' !in m.value.value + After(value, '=');
        }
      }
    }
  }
}
