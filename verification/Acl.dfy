/** Access control in filters.c: octets of a netmask, matching octet by octet, and
    the first rule that matches. */
module Acl {
  import opened Text

  type octet = x: int | 0 <= x < 256

  // ----- Octets and numbers ------------------------------------------------------

  /** `x & y` */
  function And(x: nat, y: nat): nat {
    if x == 0 || y == 0 then 0
    else 2 * And(x / 2, y / 2) + if x % 2 == 1 && y % 2 == 1 then 1 else 0
  }

  /** The address as a number, most significant octet first. */
  function Value(octets: seq<octet>): nat {
    if octets == [] then 0 else octets[0] * Power(8 * (|octets| - 1)) + Value(octets[1..])
  }

  // ----- Netmasks -------------------------------------------------------------------

  /** The octet of a mask with so many bits left to set. */
  function MaskOctet(bits: int): (m: octet)
    ensures m == 0 <==> bits <= 0
  {
    if bits >= 8 then 0xff
    else if bits <= 0 then 0
    else
      PowerBelow(8 - bits, 8);
      256 - Power(8 - bits)
  }

  lemma {:induction false} PowerBelow(i: nat, j: nat)
    requires i < j
    ensures Power(i) < Power(j)
  {
    if i + 1 < j {
      PowerBelow(i, j - 1);
    }
  }

  /** The mask of a prefix. */
  function MaskOf(length: nat, prefix: int): (mask: seq<octet>)
    ensures |mask| == length
  {
    seq(length, i requires 0 <= i < length => MaskOctet(prefix - 8 * i))
  }

  /** The mask loop of `acl_addr`, on octets that start out as zero. */
  method FillMask(mask: array<octet>, masklength: nat)
    requires forall i | 0 <= i < mask.Length :: mask[i] == 0
    modifies mask
    ensures mask[..] == MaskOf(mask.Length, masklength)
  {
    hide MaskOctet;
    var i, left := 0, masklength;
    while i < mask.Length && left != 0
      invariant i <= mask.Length && left == (if masklength < 8 * i then 0 else masklength - 8 * i)
      invariant forall j | 0 <= j < i :: mask[j] == MaskOctet(masklength - 8 * j)
      invariant forall j | i <= j < mask.Length :: mask[j] == 0
    {
      FullOrPartial(left);
      if left >= 8 {
        mask[i] := 0xff;
        left := left - 8;
      } else {
        mask[i] := 256 - Power(8 - left);
        left := 0;
      }
      i := i + 1;
    }
    forall j | i <= j < mask.Length
      ensures MaskOctet(masklength - 8 * j) == 0
    {}
  }

  lemma FullOrPartial(bits: nat)
    requires bits > 0
    ensures bits >= 8 ==> MaskOctet(bits) == 0xff
    ensures bits < 8 ==> 0 <= 256 - Power(8 - bits) < 256 && MaskOctet(bits) == 256 - Power(8 - bits)
  {
    if bits < 8 {
      PowerBelow(8 - bits, 8);
    }
  }

  // ----- Matching ----------------------------------------------------------------------

  /** The octets up to the first zero octet of the mask agree under the mask. */
  predicate SameNetwork(network: seq<octet>, mask: seq<octet>, address: seq<octet>)
    requires |network| == |mask| == |address|
  {
    if mask == [] || mask[0] == 0 then true
    else And(network[0], mask[0]) == And(address[0], mask[0]) && SameNetwork(network[1..], mask[1..], address[1..])
  }

  /** `struct sockaddr_storage`: four octets or sixteen, a port, and what lies behind four octets. */
  datatype SockAddr = SockAddr(octets: seq<octet>, port: nat, behind: seq<octet>) {
    predicate Valid() {
      |octets| == 16 || (|octets| == 4 && |behind| == 12)
    }

    predicate Mapped() {
      |octets| == 16 && octets[..12] == MAPPED
    }
  }

  const MAPPED: seq<octet> := [0, 0, 0, 0, 0, 0, 0, 0, 0, 0, 0xff, 0xff]

  /** `struct access_control_addr`: the port matters if the mask says so. */
  datatype Network = Network(addr: SockAddr, mask: seq<octet>, checkPort: bool) {
    predicate Valid() {
      addr.Valid() && |mask| == |addr.octets|
    }
  }

  /** The octets of a network, or of its mask, that are compared: an IPv4-mapped network is taken for an
      IPv4 one against an IPv4 address. */
  function Narrowed(octets: seq<octet>, network: Network, address: SockAddr): seq<octet> {
    if network.addr.Mapped() && |address.octets| == 4 && |octets| == 16 then octets[12..] else octets
  }

  /** The octets of an address that they are compared with. Where the families differ and the longer
      address is not IPv4-mapped, these are just the bytes found in the address. */
  function Against(network: Network, address: SockAddr): seq<octet> {
    if |network.addr.octets| == |address.octets| || |address.octets| < 4 then address.octets
    else if |address.octets| == 16 then if address.Mapped() then address.octets[12..] else address.octets[..4]
    else if network.addr.Mapped() then address.octets
    else address.octets + address.behind
  }

  /** `match_sockaddr` */
  predicate MatchesSockaddr(network: Network, address: SockAddr)
    requires network.Valid() && address.Valid()
  {
    && !(network.checkPort && network.addr.port != address.port)
    && SameNetwork(Narrowed(network.addr.octets, network, address), Narrowed(network.mask, network, address),
       Against(network, address))
  }

  method MatchSockaddr(network: Network, address: SockAddr) returns (matches: bool)
    requires network.Valid() && address.Valid()
    ensures matches == MatchesSockaddr(network, address)
  {
    hide SameNetwork;
    var networkAddr, netmaskAddr, addressAddr := network.addr.octets, network.mask, address.octets + address.behind;
    var addrLen := |networkAddr|;
    if |network.addr.octets| == 4 && |address.octets| == 16 && address.Mapped() {
      addressAddr := addressAddr[12..];
      addrLen := 4;
    } else if |network.addr.octets| == 16 && |address.octets| == 4 && network.addr.Mapped() {
      networkAddr, netmaskAddr := networkAddr[12..], netmaskAddr[12..];
      addrLen := 4;
    }
    if network.checkPort && network.addr.port != address.port {
      return false;
    }
    assert addressAddr[..addrLen] == Against(network, address);
    matches := CompareOctets(networkAddr, netmaskAddr, addressAddr[..addrLen], addrLen);
  }

  /** The loop of `match_sockaddr`. */
  method CompareOctets(network: seq<octet>, mask: seq<octet>, address: seq<octet>, addrLen: nat) returns (same: bool)
    requires |network| == |mask| == |address| == addrLen
    ensures same == SameNetwork(network, mask, address)
  {
    hide And;
    var i := 0;
    assert network[i..] == network && mask[i..] == mask && address[i..] == address;
    while i < addrLen && mask[i] != 0
      invariant i <= addrLen
      invariant SameNetwork(network, mask, address) == SameNetwork(network[i..], mask[i..], address[i..])
    {
      if And(network[i], mask[i]) != And(address[i], mask[i]) {
        return false;
      }
      assert network[i..][1..] == network[i + 1..] && mask[i..][1..] == mask[i + 1..];
      assert address[i..][1..] == address[i + 1..];
      i := i + 1;
    }
    same := true;
  }

  // ----- A mask compares the leading bits as numbers --------------------------------------

  lemma Multiples(d: nat, k: int)
    ensures k >= 1 ==> d * k >= d
    ensures k <= -1 ==> d * k <= -(d as int)
  {}

  lemma Divided(x: nat, d: nat, q: nat, r: nat)
    requires r < d && x == d * q + r
    ensures x / d == q && x % d == r
  {
    var k := x / d - q;
    assert d * k == r - x % d by {
      assert x == d * (x / d) + x % d;
      assert d * k == d * (x / d) - d * q;
    }
    Multiples(d, k);
  }

  lemma QuotientAbove(x: nat, p: nat, d: nat, v: nat)
    requires v < p * d
    ensures d > 0 && (x * (p * d) + v) / d == x * p + v / d && v / d < p
  {
    assert v == d * (v / d) + v % d;
    assert x * (p * d) == d * (x * p);
    assert d * (x * p + v / d) == d * (x * p) + d * (v / d);
    Divided(x * (p * d) + v, d, x * p + v / d, v % d);
    Multiples(d, v / d - p + 1);
    assert d * (v / d - p + 1) == d * (v / d) - p * d + d;
  }

  lemma QuotientBelow(x: nat, d: nat, p: nat, v: nat)
    requires v < p && d > 0
    ensures d * p > 0 && (x * p + v) / (d * p) == x / d
  {
    var q, r := x / d, x % d;
    assert x == d * q + r;
    assert x * p == (d * p) * q + r * p;
    Multiples(p, d - r);
    assert p * (d - r) == d * p - r * p;
    Divided(x * p + v, d * p, q, r * p + v);
  }

  lemma Halves(x: nat, b: nat)
    requires b > 0
    ensures x % (2 * b) == 2 * (x / 2 % b) + x % 2
  {
    var h := x / 2;
    assert h == b * (h / b) + h % b;
    Divided(x, 2 * b, h / b, 2 * (h % b) + x % 2);
  }

  lemma AndEven(x: nat, m: nat)
    ensures And(x, 2 * m) == 2 * And(x / 2, m)
  {
    assert (2 * m) / 2 == m && (2 * m) % 2 == 0;
  }

  lemma AndOdd(x: nat, m: nat)
    ensures And(x, 2 * m + 1) == 2 * And(x / 2, m) + x % 2
  {
    assert (2 * m + 1) / 2 == m && (2 * m + 1) % 2 == 1;
  }

  /** Masking with the upper bits drops the lower ones. */
  lemma {:induction false} AndUpper(x: nat, n: nat, j: nat)
    requires j <= n && x < Power(n)
    ensures Power(j) <= Power(n) && And(x, Power(n) - Power(j)) == x - x % Power(j)
  {
    hide And;
    if j == n {
      NothingMasked(x);
      Divided(x, Power(n), 0, x);
    } else {
      PowerBelow(j, n);
      if j > 0 {
        AndUpper(x / 2, n - 1, j - 1);
        Halves(x, Power(j - 1));
        AndEven(x, Power(n - 1) - Power(j - 1));
      } else {
        AndUpper(x / 2, n - 1, 0);
        AndOdd(x, Power(n - 1) - 1);
      }
    }
  }

  lemma NothingMasked(x: nat)
    ensures And(x, 0) == 0
  {}

  /** Equal under the mask is equal in the leading bits. */
  lemma SameOctet(x: octet, y: octet, bits: nat)
    requires 0 < bits <= 8
    ensures And(x, MaskOctet(bits)) == And(y, MaskOctet(bits)) <==> x / Power(8 - bits) == y / Power(8 - bits)
  {
    hide And;
    var d := Power(8 - bits);
    FullOrPartial(bits);
    assert Power(8) == 256 && (bits == 8 ==> d == 1);
    AndUpper(x, 8, 8 - bits);
    AndUpper(y, 8, 8 - bits);
    SameQuotient(x, y, d);
  }

  lemma SameQuotient(x: nat, y: nat, d: nat)
    requires d > 0
    ensures x - x % d == y - y % d <==> x / d == y / d
  {
    assert x == d * (x / d) + x % d && y == d * (y / d) + y % d;
    if x - x % d == y - y % d {
      assert d * (x / d) == d * (y / d);
      Divided(d * (x / d), d, x / d, 0);
      Divided(d * (y / d), d, y / d, 0);
    }
  }

  lemma {:induction false} PowerAdds(i: nat, j: nat)
    ensures Power(i + j) == Power(i) * Power(j)
  {
    if i > 0 {
      PowerAdds(i - 1, j);
    }
  }

  lemma {:induction false} ValueBelow(octets: seq<octet>)
    ensures Value(octets) < Power(8 * |octets|)
  {
    hide Power;
    if octets != [] {
      var k := 8 * (|octets| - 1);
      ValueBelow(octets[1..]);
      PowerAdds(8, k);
      PowerOfEight();
      OneOctetMore(octets[0], Power(k), Value(octets[1..]));
    }
  }

  lemma PowerOfEight()
    ensures Power(8) == 256
  {}

  lemma OneOctetMore(x: octet, p: nat, v: nat)
    requires v < p
    ensures x * p + v < 256 * p
  {
    Multiples(p, 256 - x);
    assert p * (256 - x) == 256 * p - x * p;
  }

  /** The leading bits of an address, as a number. */
  function Leading(octets: seq<octet>, prefix: nat): nat
    requires prefix <= 8 * |octets|
  {
    Quotient(Value(octets), Power(8 * |octets| - prefix))
  }

  function Quotient(v: nat, d: nat): nat
    requires d > 0
  {
    v / d
  }

  /** Leading bits that reach beyond the first octet. */
  lemma LeadingMore(octets: seq<octet>, prefix: nat)
    requires octets != [] && 8 <= prefix <= 8 * |octets|
    ensures Leading(octets, prefix) == octets[0] * Power(prefix - 8) + Leading(octets[1..], prefix - 8)
    ensures Leading(octets[1..], prefix - 8) < Power(prefix - 8)
  {
    hide Power;
    PowerAdds(prefix - 8, 8 * |octets| - prefix);
    ValueBelow(octets[1..]);
    QuotientAbove(octets[0], Power(prefix - 8), Power(8 * |octets| - prefix), Value(octets[1..]));
  }

  /** Leading bits of the first octet. */
  lemma LeadingFew(octets: seq<octet>, prefix: nat)
    requires octets != [] && prefix < 8
    ensures Leading(octets, prefix) == octets[0] / Power(8 - prefix)
  {
    hide Power;
    var k := 8 * (|octets| - 1);
    PowerAdds(8 - prefix, k);
    ValueBelow(octets[1..]);
    QuotientBelow(octets[0], Power(8 - prefix), Power(k), Value(octets[1..]));
  }

  lemma SameSum(x: nat, y: nat, p: nat, v: nat, w: nat)
    requires v < p && w < p
    ensures x * p + v == y * p + w <==> x == y && v == w
  {
    if x * p + v == y * p + w {
      Divided(x * p + v, p, x, v);
      Divided(y * p + w, p, y, w);
    }
  }

  lemma MaskTail(length: nat, prefix: int)
    requires length > 0
    ensures MaskOf(length, prefix)[1..] == MaskOf(length - 1, prefix - 8)
  {}

  lemma NoMask(network: seq<octet>, address: seq<octet>, prefix: int)
    requires |network| == |address| && prefix <= 0
    ensures SameNetwork(network, MaskOf(|network|, prefix), address)
  {}

  /** With the mask of a prefix, the octet loop that stops at the first zero octet compares exactly
      the leading bits of the two numbers. */
  lemma {:induction false} MaskComparesLeadingBits(network: seq<octet>, address: seq<octet>, prefix: nat)
    requires |network| == |address| && prefix <= 8 * |network|
    ensures SameNetwork(network, MaskOf(|network|, prefix), address)
         <==> Leading(network, prefix) == Leading(address, prefix)
    decreases |network|
  {
    hide Power, And, Leading, MaskOctet;
    if prefix == 0 {
      NoMask(network, address, prefix);
      NoLeadingBits(network);
      NoLeadingBits(address);
    } else {
      var x, y := network[0], address[0];
      MaskTail(|network|, prefix);
      if prefix >= 8 {
        FullOrPartial(prefix);
        FullOrPartial(8);
        SameOctet(x, y, 8);
        OneDivides(x, y);
        MaskComparesLeadingBits(network[1..], address[1..], prefix - 8);
        LeadingMore(network, prefix);
        LeadingMore(address, prefix);
        SameSum(x, y, Power(prefix - 8), Leading(network[1..], prefix - 8), Leading(address[1..], prefix - 8));
      } else {
        SameOctet(x, y, prefix);
        NoMask(network[1..], address[1..], prefix - 8);
        LeadingFew(network, prefix);
        LeadingFew(address, prefix);
      }
    }
  }

  lemma OneDivides(x: nat, y: nat)
    ensures x / Power(0) == x && y / Power(0) == y
  {}

  lemma NoLeadingBits(octets: seq<octet>)
    ensures Leading(octets, 0) == 0
  {
    hide Power;
    ValueBelow(octets);
    Divided(Value(octets), Power(8 * |octets|), 0, Value(octets));
  }

  lemma TwoRemainders(d: nat, e: nat, r: nat, t: nat)
    requires r < d && t < e
    ensures d * t + r < d * e
  {
    Multiples(d, e - 1 - t);
    assert d * e == d * (e - 1 - t) + d * t + d;
    if e - 1 - t == 0 {
      assert d * (e - 1 - t) == 0;
    }
  }

  lemma QuotientOfQuotient(v: nat, d: nat, e: nat)
    requires d > 0 && e > 0
    ensures d * e > 0 && v / (d * e) == v / d / e
  {
    Quotients(v, d, e, v / d, v % d, v / d / e, v / d % e);
  }

  lemma Quotients(v: nat, d: nat, e: nat, q: nat, r: nat, u: nat, t: nat)
    requires v == d * q + r && r < d && q == e * u + t && t < e
    ensures d * e > 0 && v / (d * e) == u
  {
    TwoRemainders(d, e, r, t);
    assert d * (e * u + t) == (d * e) * u + d * t;
    Divided(v, d * e, u, d * t + r);
  }

  /** A longer prefix matches a subset of what a shorter one matches. */
  lemma LongerPrefixMatchesLess(network: seq<octet>, address: seq<octet>, longer: nat, shorter: nat)
    requires |network| == |address| && shorter <= longer <= 8 * |network|
    requires SameNetwork(network, MaskOf(|network|, longer), address)
    ensures SameNetwork(network, MaskOf(|network|, shorter), address)
  {
    hide Power, SameNetwork, MaskOf;
    var d, e := Power(8 * |network| - longer), Power(longer - shorter);
    MaskComparesLeadingBits(network, address, longer);
    MaskComparesLeadingBits(network, address, shorter);
    PowerAdds(8 * |network| - longer, longer - shorter);
    QuotientOfQuotient(Value(network), d, e);
    QuotientOfQuotient(Value(address), d, e);
  }

  // ----- IPv4-mapped addresses ----------------------------------------------------------------

  function Map(address: SockAddr): SockAddr {
    address.(octets := MAPPED + address.octets)
  }

  lemma {:induction false} SameFront(front: seq<octet>, n: seq<octet>, a: seq<octet>, prefix: int)
    requires |n| == |a|
    ensures SameNetwork(front + n, MaskOf(|front| + |n|, prefix), front + a)
       <==> prefix <= 8 * |front| || SameNetwork(n, MaskOf(|n|, prefix - 8 * |front|), a)
    decreases |front|
  {
    hide And, MaskOctet;
    if front == [] {
      assert front + n == n && front + a == a;
      if prefix <= 0 {
        NoMask(n, a, prefix);
      }
    } else if prefix <= 0 {
      NoMask(front + n, front + a, prefix);
    } else {
      SameFront(front[1..], n, a, prefix - 8);
      MaskTail(|front| + |n|, prefix);
      assert (front + n)[1..] == front[1..] + n && (front + a)[1..] == front[1..] + a;
    }
  }

  /** An IPv4 address and its IPv4-mapped form match the same networks, IPv4 or IPv4-mapped. */
  lemma MappedMatchesTheSame(network: Network, prefix: nat, address: SockAddr)
    requires network.Valid() && network.mask == MaskOf(|network.addr.octets|, prefix)
    requires address.Valid() && |address.octets| == 4 && (|network.addr.octets| == 4 || network.addr.Mapped())
    ensures MatchesSockaddr(network, address) == MatchesSockaddr(network, Map(address))
  {
    hide SameNetwork, MaskOctet;
    var mapped, other := Map(address), network.addr.octets;
    assert mapped.octets[..12] == MAPPED && mapped.octets[12..] == address.octets;
    if |other| == 16 {
      assert other == MAPPED + other[12..];
      SameFront(MAPPED, other[12..], address.octets, prefix);
      assert network.mask[12..] == MaskOf(4, prefix - 96);
      if prefix <= 96 {
        NoMask(other[12..], address.octets, prefix - 96);
      }
    }
  }

  /** What a match means: the port is the same if it matters, and so are the leading bits. Between an IPv4
      network and a mapped address, or a mapped network and an IPv4 address, those of the last four octets
      count; between other families those of the bytes that are found in the address. */
  lemma MatchMeans(network: Network, prefix: nat, address: SockAddr)
    requires network.Valid() && address.Valid() && prefix <= 8 * |network.addr.octets|
    requires network.mask == MaskOf(|network.addr.octets|, prefix)
    ensures var n, a := network.addr.octets, address.octets;
            MatchesSockaddr(network, address)
            <==> && (network.checkPort ==> network.addr.port == address.port)
                 && if |n| == |a| then Leading(n, prefix) == Leading(a, prefix)
                    else if |n| == 4 then
                      Leading(n, prefix) == Leading(if a[..12] == MAPPED then a[12..] else a[..4], prefix)
                    else if n[..12] == MAPPED then
                      prefix < 96 || Leading(n[12..], prefix - 96) == Leading(a, prefix - 96)
                    else Leading(n, prefix) == Leading(a + address.behind, prefix)
  {
    hide SameNetwork, MaskOctet, Leading;
    var n, a := network.addr.octets, address.octets;
    if |n| == 16 && |a| == 4 && network.addr.Mapped() {
      assert network.mask[12..] == MaskOf(4, prefix - 96);
      if prefix < 96 {
        NoMask(n[12..], a, prefix - 96);
      } else {
        MaskComparesLeadingBits(n[12..], a, prefix - 96);
      }
    } else {
      MaskComparesLeadingBits(n, Against(network, address), prefix);
    }
  }

  // ----- The list of rules ------------------------------------------------------------------------

  /** `struct access_control_list`; no destination is a wildcard. */
  datatype Rule = Rule(permit: bool, src: Network, dst: Option<Network>) {
    predicate Valid() {
      src.Valid() && (dst.Some? ==> dst.value.Valid())
    }
  }

  predicate RuleMatches(rule: Rule, client: SockAddr, dst: Option<SockAddr>)
    requires rule.Valid() && client.Valid() && (dst.Some? ==> dst.value.Valid())
    ensures RuleMatches(rule, client, dst) <==>
              !(!MatchesSockaddr(rule.src, client)
                || (dst.Some? && rule.dst.Some? && !MatchesSockaddr(rule.dst.value, dst.value)))
  {
    && MatchesSockaddr(rule.src, client)
    && (dst.None? || rule.dst.None? || MatchesSockaddr(rule.dst.value, dst.value))
  }

  /** `block_acl`: without rules nothing is blocked; with rules the first that matches decides, and
      a client that none matches is blocked. */
  method BlockAcl(acl: seq<Rule>, client: SockAddr, dst: Option<SockAddr>) returns (blocked: bool)
    requires (forall i | 0 <= i < |acl| :: acl[i].Valid()) && client.Valid() && (dst.Some? ==> dst.value.Valid())
    ensures !blocked <==>
      || acl == []
      || exists i :: 0 <= i < |acl| && acl[i].permit && RuleMatches(acl[i], client, dst)
                     && forall j | 0 <= j < i :: !RuleMatches(acl[j], client, dst)
  {
    hide MatchesSockaddr;
    if acl == [] {
      return false;
    }
    var i := 0;
    while i < |acl|
      invariant i <= |acl|
      invariant forall j | 0 <= j < i :: !RuleMatches(acl[j], client, dst)
    {
      var matches := MatchSockaddr(acl[i].src, client);
      if matches {
        if dst.None? {
          return !acl[i].permit;
        }
        if acl[i].dst.None? {
          return !acl[i].permit;
        }
        matches := MatchSockaddr(acl[i].dst.value, dst.value);
        if matches {
          return !acl[i].permit;
        }
      }
      i := i + 1;
    }
    blocked := true;
  }
}
