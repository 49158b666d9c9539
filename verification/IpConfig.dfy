/** The servers the network interface hands out, as `ipConfigChanged` turns them into a
    nameserver list.
 */
module IpConfig {
  import opened DnsResolver
  import opened DnsFailover
  import opened Wrappers

  type octet = n: int | 0 <= n < 256

  datatype Address = Address(a: octet, b: octet, c: octet, d: octet)

  const ZERO := Address(0, 0, 0, 0)

  function Digit(n: nat): char
    requires n < 10
  {
    (48 + n) as char
  }

  function Decimal(n: octet): string {
    if n < 10 then [Digit(n)]
    else if n < 100 then [Digit(n / 10), Digit(n % 10)]
    else [Digit(n / 100), Digit(n / 10 % 10), Digit(n % 10)]
  }

  function UrlOf(x: Address): url {
    "udp://" + (Decimal(x.a) + "." + (Decimal(x.b) + "." + (Decimal(x.c) + "." + (Decimal(x.d) + ":" + "53"))))
  }

  /** The addresses in use, each at its first mention. */
  function Firsts(dns: seq<Address>): seq<Address> {
    if dns == [] then [] else
      var kept, x := Firsts(dns[..|dns| - 1]), dns[|dns| - 1];
      if x == ZERO || x in kept then kept else kept + [x]
  }

  function Urls(kept: seq<Address>): (r: seq<url>)
    ensures |r| == |kept| && forall i | 0 <= i < |r| :: r[i] == UrlOf(kept[i])
  {
    seq(|kept|, i requires 0 <= i < |kept| => UrlOf(kept[i]))
  }

  function Offered(kept: seq<Address>): (r: seq<Option<url>>)
    ensures |r| == |kept| && forall i | 0 <= i < |r| :: r[i] == Some(UrlOf(kept[i]))
  {
    seq(|kept|, i requires 0 <= i < |kept| => Some(UrlOf(kept[i])))
  }

  lemma {:induction false} FirstsAreExact(dns: seq<Address>, x: Address)
    ensures x in Firsts(dns) <==> x in dns && x != ZERO
  {
    if dns != [] {
      FirstsAreExact(dns[..|dns| - 1], x);
      assert dns == dns[..|dns| - 1] + [dns[|dns| - 1]];
    }
  }

  lemma {:induction false} FirstsAreDistinct(dns: seq<Address>)
    ensures forall i, j | 0 <= i < j < |Firsts(dns)| :: Firsts(dns)[i] != Firsts(dns)[j]
    ensures |Firsts(dns)| <= |dns|
  {
    if dns != [] {
      FirstsAreDistinct(dns[..|dns| - 1]);
    }
  }

  /** Where an address is first mentioned. */
  predicate FirstAt(dns: seq<Address>, p: nat, x: Address) {
    p < |dns| && dns[p] == x && x !in dns[..p]
  }

  lemma FirstAtPrefix(dns: seq<Address>, p: nat, x: Address)
    requires dns != [] && FirstAt(dns, p, x)
    ensures x in dns[..|dns| - 1] ==> FirstAt(dns[..|dns| - 1], p, x)
    ensures x !in dns[..|dns| - 1] ==> p == |dns| - 1
  {
    var init := dns[..|dns| - 1];
    assert dns[..|init|] == init;
    if p < |init| {
      assert init[p] == x && dns[..p] == init[..p];
    }
  }

  /** The addresses are kept in the order in which they are first mentioned. */
  lemma {:induction false} FirstsAreInOrder(dns: seq<Address>, i: nat, j: nat, p: nat, q: nat)
    requires i < j < |Firsts(dns)|
    requires FirstAt(dns, p, Firsts(dns)[i]) && FirstAt(dns, q, Firsts(dns)[j])
    ensures p < q
  {
    var init, kept := dns[..|dns| - 1], Firsts(dns[..|dns| - 1]);
    FirstAtPrefix(dns, p, Firsts(dns)[i]);
    FirstAtPrefix(dns, q, Firsts(dns)[j]);
    assert Firsts(dns)[i] == kept[i];
    FirstsAreExact(init, kept[i]);
    if j < |kept| {
      FirstsAreExact(init, kept[j]);
      FirstsAreInOrder(init, i, j, p, q);
    } else {
      FirstsAreExact(init, Firsts(dns)[j]);
    }
  }

  /** What the URLs look like. */
  lemma UrlExamples()
    ensures UrlOf(Address(8, 8, 8, 8)) == "udp://8.8.8.8:53"
    ensures UrlOf(Address(192, 168, 0, 10)) == "udp://192.168.0.10:53"
  {
    assert Digit(8) == '8' && Digit(1) == '1' && Digit(9) == '9' && Digit(2) == '2';
    assert Digit(6) == '6' && Digit(0) == '0';
    assert Decimal(8) == "8" && Decimal(192) == "192" && Decimal(168) == "168";
    assert Decimal(0) == "0" && Decimal(10) == "10";
  }

  // -------------------------------------------------------------------------
  // Different addresses have different URLs
  // -------------------------------------------------------------------------

  lemma DecimalIsPlain(n: octet)
    ensures 1 <= |Decimal(n)| <= 3 && '.' !in Decimal(n) && ':' !in Decimal(n)
  {
  }

  /** Reads a decimal number back. */
  function Value(s: string): int {
    if s == [] then 0 else 10 * Value(s[..|s| - 1]) + (s[|s| - 1] as int - 48)
  }

  lemma ValueSnoc(s: string, n: nat)
    requires n < 10
    ensures Value(s + [Digit(n)]) == 10 * Value(s) + n
  {
    assert (s + [Digit(n)])[..|s|] == s;
  }

  lemma ValueOfDecimal(n: octet)
    ensures Value(Decimal(n)) == n
  {
    ValueSnoc([], n / 100);
    ValueSnoc([], n / 10 % 10);
    ValueSnoc([], n % 10);
    ValueSnoc([Digit(n / 10 % 10)], n % 10);
    ValueSnoc([Digit(n / 100)], n / 10 % 10);
    ValueSnoc([Digit(n / 100), Digit(n / 10 % 10)], n % 10);
    assert [] + [Digit(n / 100)] == [Digit(n / 100)];
    assert [] + [Digit(n / 10 % 10)] == [Digit(n / 10 % 10)];
    assert [] + [Digit(n % 10)] == [Digit(n % 10)];
    assert [Digit(n / 100)] + [Digit(n / 10 % 10)] == [Digit(n / 100), Digit(n / 10 % 10)];
    assert [Digit(n / 10 % 10)] + [Digit(n % 10)] == [Digit(n / 10 % 10), Digit(n % 10)];
    assert [Digit(n / 100), Digit(n / 10 % 10)] + [Digit(n % 10)]
        == [Digit(n / 100), Digit(n / 10 % 10), Digit(n % 10)];
  }

  lemma DecimalIsInjective(m: octet, n: octet)
    requires Decimal(m) == Decimal(n)
    ensures m == n
  {
    ValueOfDecimal(m);
    ValueOfDecimal(n);
  }

  lemma CutAtSeparator(p: string, r: string, q: string, s: string, sep: string)
    requires |sep| == 1 && sep[0] !in p && sep[0] !in q
    requires p + sep + r == q + sep + s
    ensures p == q && r == s
  {
    var x, y := p + sep + r, q + sep + s;
    assert x[|p|] == sep[0] && y[|q|] == sep[0];
    assert forall i | 0 <= i < |p| :: x[i] == p[i];
    assert forall i | 0 <= i < |q| :: y[i] == q[i];
    assert |p| == |q|;
    assert p == x[..|p|] && q == y[..|q|];
    assert r == x[|p| + 1..] && s == y[|q| + 1..];
  }

  lemma UrlOfIsInjective(x: Address, y: Address)
    requires UrlOf(x) == UrlOf(y)
    ensures x == y
  {
    DecimalIsPlain(x.a); DecimalIsPlain(x.b); DecimalIsPlain(x.c); DecimalIsPlain(x.d);
    DecimalIsPlain(y.a); DecimalIsPlain(y.b); DecimalIsPlain(y.c); DecimalIsPlain(y.d);
    var x3, y3 := Decimal(x.d) + ":" + "53", Decimal(y.d) + ":" + "53";
    var x2, y2 := Decimal(x.c) + "." + x3, Decimal(y.c) + "." + y3;
    var x1, y1 := Decimal(x.b) + "." + x2, Decimal(y.b) + "." + y2;
    var x0, y0 := Decimal(x.a) + "." + x1, Decimal(y.a) + "." + y1;
    assert UrlOf(x)[6..] == x0 && UrlOf(y)[6..] == y0;
    CutAtSeparator(Decimal(x.a), x1, Decimal(y.a), y1, ".");
    CutAtSeparator(Decimal(x.b), x2, Decimal(y.b), y2, ".");
    CutAtSeparator(Decimal(x.c), x3, Decimal(y.c), y3, ".");
    CutAtSeparator(Decimal(x.d), "53", Decimal(y.d), "53", ":");
    DecimalIsInjective(x.a, y.a);
    DecimalIsInjective(x.b, y.b);
    DecimalIsInjective(x.c, y.c);
    DecimalIsInjective(x.d, y.d);
  }

  lemma UrlOfFits(x: Address)
    ensures 0 < |UrlOf(x)| < NAMESERVER_LEN && Cut(UrlOf(x)) == UrlOf(x)
  {
    DecimalIsPlain(x.a); DecimalIsPlain(x.b); DecimalIsPlain(x.c); DecimalIsPlain(x.d);
  }

  lemma UsableCons(u: url, rest: seq<Option<url>>, room: nat)
    requires 0 < |u| < NAMESERVER_LEN && room > 0
    ensures Usable([Some(u)] + rest, room) == [u] + Usable(rest, room - 1)
  {
    var all := [Some(u)] + rest;
    assert all[1..] == rest;
  }

  lemma OfferedCons(kept: seq<Address>)
    requires kept != []
    ensures Offered(kept) == [Some(UrlOf(kept[0]))] + Offered(kept[1..])
    ensures Urls(kept) == [UrlOf(kept[0])] + Urls(kept[1..])
  {
  }

  lemma {:induction false} AllUsable(kept: seq<Address>, room: nat)
    requires |kept| <= room
    ensures Usable(Offered(kept), room) == Urls(kept)
  {
    if kept != [] {
      AllUsable(kept[1..], room - 1);
      OfferedCons(kept);
      UrlOfFits(kept[0]);
      UsableCons(UrlOf(kept[0]), Offered(kept[1..]), room);
    }
  }

  /** The table built from the interface holds every address once, none of them cut short. */
  lemma TableFromInterface(dns: seq<Address>, capacity: nat)
    requires |dns| <= capacity
    ensures Usable(Offered(Firsts(dns)), capacity) == Urls(Firsts(dns))
    ensures Distinct(Usable(Offered(Firsts(dns)), capacity))
  {
    var kept := Firsts(dns);
    FirstsAreDistinct(dns);
    AllUsable(kept, capacity);
    forall i, j | 0 <= i < j < |kept| ensures UrlOf(kept[i]) != UrlOf(kept[j]) {
      if UrlOf(kept[i]) == UrlOf(kept[j]) {
        UrlOfIsInjective(kept[i], kept[j]);
      }
    }
  }

  /** Configured from the interface, every rotation that is reported lands on another server,
      whatever the interface repeated, whatever state it was configured in and whatever ran in
      between. */
  lemma EveryRotationMoves(c: Core, capacity: nat, dns: seq<Address>, ops: seq<Op>, e: Option<string>, now: nat)
    requires |dns| <= capacity && NoneConfigures(ops)
    ensures
      var d := DnsFailover.Run(Configure(c, Offered(Firsts(dns)), capacity), capacity, ops);
      Rotates(d, e, now) ==> UrlText(Report(d, e, now)) != UrlText(d)
  {
    var start := Configure(c, Offered(Firsts(dns)), capacity);
    TableFromInterface(dns, capacity);
    SelectionIsKept(c, capacity, Set(Offered(Firsts(dns))));
    SelectionOverRuns(start, capacity, ops);
    RotationsCycle(c, capacity, Offered(Firsts(dns)), ops);
    var d := DnsFailover.Run(start, capacity, ops);
    if Rotates(d, e, now) {
      RotationChangesServer(d, e, now);
    }
  }

  /** The inner loop of `ipConfigChanged`. */
  method IsKept(kept: seq<Address>, x: Address) returns (seen: bool)
    ensures seen <==> x in kept
  {
    seen := false;
    var j := 0;
    while j < |kept| && !seen
      invariant 0 <= j <= |kept|
      invariant seen <==> x in kept[..j]
    {
      assert kept[..j + 1] == kept[..j] + [kept[j]];
      seen := kept[j] == x;
      j := j + 1;
    }
    assert kept == kept[..j] + kept[j..];
  }

  /** And its outer loop. */
  method CollectServers(dns: seq<Address>) returns (urls: seq<Option<url>>)
    ensures urls == Offered(Firsts(dns))
  {
    urls := [];
    var kept: seq<Address> := [];
    var i := 0;
    while i < |dns|
      invariant 0 <= i <= |dns|
      invariant kept == Firsts(dns[..i]) && urls == Offered(kept)
    {
      assert dns[..i + 1][..i] == dns[..i];
      if dns[i] != ZERO {
        var seen := IsKept(kept, dns[i]);
        if !seen {
          urls := urls + [Some(UrlOf(dns[i]))];
          kept := kept + [dns[i]];
        }
      }
      i := i + 1;
    }
    assert dns[..i] == dns;
  }
}
