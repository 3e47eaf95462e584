/** DTE addresses between the generic form and the one an X.25 interface wants: the DNIC
    rules of gen2if and if2gen in compat/x25addr.c. */
module X25Dte {
  import opened Addresses

  /** x25_dnic_prefix (the first is the local network's), x25_strip_dnic, x25_intl_zero. */
  datatype Config = Config(prefixes: seq<string>, strip: bool, zero: bool)

  predicate HasPrefix(cfg: Config) {
    cfg.prefixes != [] && cfg.prefixes[0] != []
  }

  predicate Local(cfg: Config, g: string)
    requires HasPrefix(cfg)
  {
    Prefix(cfg.prefixes[0], g)
  }

  /** One of the secondary prefixes, up to the first empty one, starts the address. */
  predicate Secondary(prefixes: seq<string>, g: string) {
    prefixes != [] && prefixes[0] != [] && (Prefix(prefixes[0], g) || Secondary(prefixes[1..], g))
  }

  function Gen2If(cfg: Config, g: string): string {
    if !HasPrefix(cfg) then g
    else if Local(cfg, g) then if cfg.strip then g[|cfg.prefixes[0]|..] else g
    else if !Secondary(cfg.prefixes[1..], g) && cfg.zero then "0" + g
    else g
  }

  /** The address looks like one with the international zero in front. */
  predicate ZeroLed(cfg: Config, d: string) {
    cfg.zero && |d| > 0 && d[0] == '0' && (|d| > 1 ==> d[1] != '0')
  }

  function If2Gen(cfg: Config, d: string): string {
    if !HasPrefix(cfg) then d
    else if ZeroLed(cfg, d) then d[1..]
    else if cfg.strip && |d| < 12 then cfg.prefixes[0] + d
    else d
  }

  /** gen2if, with its loop over the secondary prefixes. */
  method ToInterface(cfg: Config, g: string) returns (dte: string)
    ensures dte == Gen2If(cfg, g)
  {
    if !HasPrefix(cfg) {
      return g;
    }
    var n := |cfg.prefixes[0]|;
    if Prefix(cfg.prefixes[0], g) {
      return if cfg.strip then g[n..] else g;
    }
    var found := false;
    var rest := cfg.prefixes[1..];
    var k := 0;
    assert rest[0..] == rest;
    while k < |rest| && rest[k] != []
      invariant 0 <= k <= |rest|
      invariant Secondary(rest, g) == (found || Secondary(rest[k..], g))
    {
      if Prefix(rest[k], g) {
        found := true;
      }
      assert rest[k..][1..] == rest[k + 1..];
      k := k + 1;
    }
    dte := if !found && cfg.zero then "0" + g else g;
  }

  /** if2gen on an address structure that starts out empty. */
  method ToGeneric(cfg: Config, dte: string) returns (g: string)
    ensures g == If2Gen(cfg, dte)
  {
    if !HasPrefix(cfg) {
      return dte;
    }
    g := "";
    var i := 0;
    if cfg.zero && |dte| > 0 && dte[0] == '0' && (|dte| == 1 || dte[1] != '0') {
      i := 1;
    } else if cfg.strip && |dte| < 12 {
      g := cfg.prefixes[0];
    }
    g := g + dte[i..];
    assert dte[0..] == dte && "" + dte[i..] == dte[i..];
  }

  /** Exactly the addresses if2gen gives back, case by case: local and stripped, local and
      whole, foreign with a zero, foreign as it is. */
  predicate Restored(cfg: Config, g: string) {
    !HasPrefix(cfg)
    || (if Local(cfg, g) then
          if cfg.strip then
            (var d := g[|cfg.prefixes[0]|..]; |d| < 12 && !ZeroLed(cfg, d))
          else !ZeroLed(cfg, g)
        else if !Secondary(cfg.prefixes[1..], g) && cfg.zero then g == [] || g[0] != '0'
        else !ZeroLed(cfg, g) && (cfg.strip ==> |g| >= 12))
  }

  /** if2gen undoes gen2if for exactly these addresses. */
  lemma DteRoundTrip(cfg: Config, g: string)
    ensures If2Gen(cfg, Gen2If(cfg, g)) == g <==> Restored(cfg, g)
  {
    if HasPrefix(cfg) {
      var p := cfg.prefixes[0];
      var d := Gen2If(cfg, g);
      if Local(cfg, g) {
        assert cfg.strip ==> g == p + d;
      } else if !Secondary(cfg.prefixes[1..], g) && cfg.zero {
        assert d[0] == '0' && d[1..] == g;
      }
      assert |p + d| == |p| + |d|;
    }
  }

  /** One of the prefixes from i on, up to the first empty one, starts the address. */
  ghost predicate Listed(prefixes: seq<string>, i: nat, g: string) {
    exists k :: ListedAt(prefixes, i, k, g)
  }

  ghost predicate ListedAt(prefixes: seq<string>, i: nat, k: nat, g: string) {
    i <= k < |prefixes| && prefixes[k] <= g && forall h :: i <= h <= k ==> prefixes[h] != []
  }

  lemma {:induction false} SecondaryMeans(prefixes: seq<string>, i: nat, g: string)
    requires i <= |prefixes|
    ensures Secondary(prefixes[i..], g) <==> Listed(prefixes, i, g)
    decreases |prefixes| - i
  {
    if i < |prefixes| {
      var rest := prefixes[i..];
      assert rest[0] == prefixes[i] && rest[1..] == prefixes[i + 1..];
      SecondaryMeans(prefixes, i + 1, g);
      if prefixes[i] != [] && prefixes[i] <= g {
        assert ListedAt(prefixes, i, i, g);
      } else if prefixes[i] != [] {
        if Listed(prefixes, i + 1, g) {
          var k :| ListedAt(prefixes, i + 1, k, g);
          assert ListedAt(prefixes, i, k, g);
        }
        if Listed(prefixes, i, g) {
          var k :| ListedAt(prefixes, i, k, g);
          assert ListedAt(prefixes, i + 1, k, g);
        }
      }
    }
  }

  /** What an interface is given for the digits behind the local DNIC p, and for a foreign
      address: the DNIC goes if it is to be stripped, and a foreign address outside the
      secondary DNICs gets the international zero. */
  lemma InterfaceGets(cfg: Config, p: string, digits: string)
    requires cfg.prefixes != [] && cfg.prefixes[0] == p && p != []
    ensures Gen2If(cfg, p + digits) == if cfg.strip then digits else p + digits
    ensures !(p <= digits) ==>
              Gen2If(cfg, digits) == if cfg.zero && !Listed(cfg.prefixes, 1, digits) then ['0'] + digits else digits
  {
    assert (p + digits)[..|p|] == p && (p + digits)[|p|..] == digits;
    SecondaryMeans(cfg.prefixes, 1, digits);
    hide Secondary, Listed;
  }

  /** What is made of digits from the interface: a single leading zero is the international
      one where that is in use, and fewer than twelve digits lack the local DNIC where that
      is stripped. */
  lemma InterfaceMeans(cfg: Config, p: string, digits: string)
    requires cfg.prefixes != [] && cfg.prefixes[0] == p && p != []
    ensures If2Gen(cfg, ['0'] + digits)
         == if cfg.zero && (digits == [] || digits[0] != '0') then digits
            else if cfg.strip && |digits| < 11 then p + (['0'] + digits) else ['0'] + digits
    ensures digits == [] || digits[0] != '0' || !cfg.zero || (|digits| > 1 && digits[1] == '0') ==>
              If2Gen(cfg, digits) == if cfg.strip && |digits| < 12 then p + digits else digits
  {
    assert (['0'] + digits)[1..] == digits;
  }
}
