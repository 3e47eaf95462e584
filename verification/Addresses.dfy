/** Network addresses and the community table (h/isoaddrs.h, h/tailor.h), and the small
    text operations every parser of the repository uses. */
module Addresses {
  import opened Options
  import opened Digits

  const NASIZE := 64       // octets in an NSAP address
  const NSAP_DTELEN := 36  // digits in a DTE address
  const NPSIZE := 4        // octets in an X.25 protocol id
  const CUDFSIZE := 16     // octets in an X.25 call user data field
  const NTADDR := 8        // network addresses in a transport address
  const SELSIZE := 64      // octets in a selector
  const PREFIXSIZE := 20   // octets in a community prefix

  const SUBNET_REALNS := -1
  const SUBNET_INT_X25 := 1
  const SUBNET_DYNAMIC := 100
  const NA_TSET_TCP := 1

  datatype Stack = NSAP | TCP | X25

  /** struct NSAPaddr; the members of its union become constructors. */
  datatype NetAddr =
    | NsapAddr(community: int, address: seq<Octet>)
    | TcpAddr(community: int, domain: string, port: nat, tset: nat)
    | X25Addr(community: int, dte: string, pid: seq<Octet>, cudf: seq<Octet>)

  type Selector = seq<Octet>

  /** struct PSAPaddr: the selectors of the three layers and the network addresses. */
  datatype Paddr = Paddr(psel: Selector, ssel: Selector, tsel: Selector, addrs: seq<NetAddr>)

  function StackOf(a: NetAddr): Stack {
    match a
    case NsapAddr(_, _) => NSAP
    case TcpAddr(_, _, _, _) => TCP
    case X25Addr(_, _, _, _) => X25
  }

  /** struct ts_interim: one community of the tailoring table. */
  datatype Community = Community(value: Option<string>, subnet: int, syntax: Stack, prefix: seq<Octet>)

  /** The first community whose subnet is the given one. */
  function Own(table: seq<Community>, subnet: int): (r: Option<Community>)
    ensures r.Some? ==> r.value in table && r.value.subnet == subnet
    ensures r.None? ==> forall c :: c in table ==> c.subnet != subnet
  {
    if table == [] then None
    else if table[0].subnet == subnet then Some(table[0])
    else Own(table[1..], subnet)
  }

  ghost predicate DistinctSubnets(table: seq<Community>) {
    forall i, j :: 0 <= i < j < |table| ==> table[i].subnet != table[j].subnet
  }

  /** The international X.25 addresses that need no community: both codecs write them as
      X.121 digits alone. */
  predicate X121Form(a: NetAddr) {
    a.X25Addr? && a.community == SUBNET_INT_X25 && a.cudf == [] && a.pid == []
    && (a.dte == [] || a.dte[0] != '0')
  }

  // ---------------------------------------------------------------- cutting text

  /** Position of the first c, or the length: strlen-terminated index(). */
  function IndexOf(s: string, c: char): (n: nat)
    ensures n <= |s|
    ensures n < |s| ==> s[n] == c
    ensures forall i :: 0 <= i < n ==> s[i] != c
  {
    if s == [] || s[0] == c then 0 else 1 + IndexOf(s[1..], c)
  }

  function Before(s: string, c: char): string {
    s[..IndexOf(s, c)]
  }

  /** What follows the first c; empty when there is none, as the parsers set it. */
  function After(s: string, c: char): string {
    if IndexOf(s, c) == |s| then [] else s[IndexOf(s, c) + 1..]
  }

  predicate Has(s: string, c: char) {
    IndexOf(s, c) < |s|
  }

  lemma CutAt(a: string, c: char, b: string)
    requires c !in a
    ensures Has(a + [c] + b, c) && Before(a + [c] + b, c) == a && After(a + [c] + b, c) == b
  {
    var s := a + [c] + b;
    assert s[|a|] == c;
    assert forall i :: 0 <= i < |a| ==> s[i] == a[i] && a[i] != c;
  }

  lemma CutNone(a: string, c: char)
    requires c !in a
    ensures !Has(a, c) && Before(a, c) == a && After(a, c) == []
  {
    var n := IndexOf(a, c);
    assert n == |a|;
  }

  predicate Prefix(p: string, s: string) {
    |p| <= |s| && p == s[..|p|]
  }

  // ---------------------------------------------------------------- dotted hosts

  type Quad = q: seq<Octet> | |q| == 4 witness [0, 0, 0, 0]

  /** inet_ntoa, and the "%d.%d.%d.%d" of norm2na. */
  function Dotted(q: seq<nat>): string
    requires |q| == 4
  {
    Dec(q[0]) + "." + Dec(q[1]) + "." + Dec(q[2]) + "." + Dec(q[3])
  }

  function HostPart(s: string): Option<Octet> {
    if 1 <= |s| <= 3 && AllDigits(s) && (|s| == 1 || s[0] != '0') && Val(s) < 256
    then Some(Val(s)) else None
  }

  /** gethostbystring on a dotted-decimal literal; host names need a resolver and are
      not part of this model. */
  function LiteralHost(s: string): Option<Quad> {
    var r1 := After(s, '.');
    var r2 := After(r1, '.');
    if !(Has(s, '.') && Has(r1, '.') && Has(r2, '.')) then None
    else
      var a, b, c, d := HostPart(Before(s, '.')), HostPart(Before(r1, '.')),
                        HostPart(Before(r2, '.')), HostPart(After(r2, '.'));
      if a.Some? && b.Some? && c.Some? && d.Some?
      then Some([a.value, b.value, c.value, d.value]) else None
  }

  lemma OctetPart(n: Octet)
    ensures HostPart(Dec(n)) == Some(n) && '.' !in Dec(n) && '+' !in Dec(n)
  {
    ValDec(n);
    DecDigits(n);
    assert n < 10 ==> |Dec(n)| == 1;
    assert 10 <= n < 100 ==> |Dec(n)| == |Dec(n / 10)| + 1 && n / 10 < 10;
    assert 100 <= n ==> |Dec(n)| == |Dec(n / 10)| + 1 && 10 <= n / 10 < 26
                        && |Dec(n / 10)| == |Dec(n / 10 / 10)| + 1;
  }

  /** Every dotted literal resolves to its own octets. */
  lemma LiteralDotted(q: Quad)
    ensures LiteralHost(Dotted(q)) == Some(q)
  {
    hide Dec, HostPart, IndexOf, Before, After, Has;
    var d := [Dec(q[0]), Dec(q[1]), Dec(q[2]), Dec(q[3])];
    OctetPart(q[0]);
    OctetPart(q[1]);
    OctetPart(q[2]);
    OctetPart(q[3]);
    var r2 := d[2] + ['.'] + d[3];
    var r1 := d[1] + ['.'] + r2;
    assert Dotted(q) == d[0] + ['.'] + r1;
    CutAt(d[0], '.', r1);
    CutAt(d[1], '.', r2);
    CutAt(d[2], '.', d[3]);
    assert [q[0], q[1], q[2], q[3]] == q;
  }
}
