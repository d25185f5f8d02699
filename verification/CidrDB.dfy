/**
 * The CIDR block list over both address families, against what it means for a
 * network to contain an address.
 */
module CidrDB {
  import opened Octets
  import opened CidrTrie

  // ----- networks and addresses -----

  /** A rule as parsed: the address as written, in sixteen bytes, and its network. */
  datatype Rule = Rule(ip: Bytes, net: Net)

  /** The network of a parsed rule has four bytes exactly if an IPv4 address was written, and its address is masked. */
  ghost predicate Parsed(r: Rule)
  {
    && |r.ip| == 16 && NetOk(r.net)
    && (|r.net.ip| == 16 || (|r.net.ip| == 4 && To4(r.ip).Some?))
    && Masked(if |r.net.ip| == 4 then To4(r.ip).value else r.ip, r.net)
  }

  ghost predicate Masked(ip: Bytes, n: Net)
    requires |ip| == |n.ip|
  {
    forall i :: 0 <= i < 8 * |ip| ==> (Bit(n.ip, i) <==> i < n.prefix && Bit(ip, i))
  }

  /** The number of a network and how many of its bits count: an IPv4-mapped one has four bytes too. */
  function Number(n: Net): (Bytes, nat)
  {
    if To4(n.ip).Some? && |n.ip| == 16 then (To4(n.ip).value, if n.prefix > 96 then n.prefix - 96 else 0)
    else (n.ip, n.prefix)
  }

  /** IPNet.Contains */
  ghost predicate Contains(n: Net, ip: Bytes)
    requires NetOk(n)
  {
    var (number, bits) := Number(n);
    |number| == |Canonical(ip)| && AgreeUpTo(number, Canonical(ip), bits)
  }

  ghost predicate AgreeUpTo(a: Bytes, b: Bytes, n: nat)
    requires n <= 8 * |a| == 8 * |b|
  {
    forall i :: 0 <= i < n ==> (Bit(a, i) <==> Bit(b, i))
  }

  /** A rule whose network has the width of the family it is filed under; only IPv4-mapped ones have not. */
  predicate WellFiled(r: Rule)
  {
    !(To4(r.ip).Some? && |r.net.ip| == 16)
  }

  lemma AgreeIsPrefix(a: Bytes, b: Bytes, n: nat)
    requires n <= 8 * |a| == 8 * |b|
    ensures AgreeUpTo(a, b, n) <==> Prefix(a, n) <= Prefix(b, 8 * |b|)
  {
    hide Bit, Prefix;
    var p, q := Prefix(a, n), Prefix(b, 8 * |b|);
    if p <= q {
      assert forall i :: 0 <= i < n ==> p[i] == q[i];
    }
    if AgreeUpTo(a, b, n) {
      assert p == q[..n];
    }
  }

  // ----- bytes from bits -----

  lemma Half(x: nat, y: nat)
    requires x / 2 == y / 2 && x % 2 == y % 2
    ensures x == y
  {
  }

  lemma Halves(x: nat)
    ensures x / 64 / 2 == x / 128 && x / 32 / 2 == x / 64 && x / 16 / 2 == x / 32 && x / 8 / 2 == x / 16
    ensures x / 4 / 2 == x / 8 && x / 2 / 2 == x / 4
  {
  }

  lemma {:induction false} HalvedDown(xs: seq<nat>, ys: seq<nat>, i: nat)
    requires |xs| == |ys| && i < |xs| && xs[|xs| - 1] < 2 && ys[|ys| - 1] < 2
    requires forall k :: 0 <= k < |xs| - 1 ==> xs[k + 1] == xs[k] / 2 && ys[k + 1] == ys[k] / 2
    requires forall k :: 0 <= k < |xs| ==> xs[k] % 2 == ys[k] % 2
    ensures xs[i] == ys[i]
    decreases |xs| - i
  {
    if i == |xs| - 1 {
    } else {
      HalvedDown(xs, ys, i + 1);
      Half(xs[i], ys[i]);
    }
  }

  function Halved(x: nat): (xs: seq<nat>)
  {
    [x, x / 2, x / 4, x / 8, x / 16, x / 32, x / 64, x / 128]
  }

  lemma ByteOfBits(x: nat, y: nat)
    requires x < 256 && y < 256 && forall k :: 0 <= k < 8 ==> Halved(x)[k] % 2 == Halved(y)[k] % 2
    ensures x == y
  {
    hide Halved;
    HalvedSteps(x);
    HalvedSteps(y);
    HalvedDown(Halved(x), Halved(y), 0);
  }

  lemma HalvedSteps(x: nat)
    requires x < 256
    ensures
      var xs := Halved(x);
      |xs| == 8 && xs[0] == x && xs[7] < 2 && forall k :: 0 <= k < 7 ==> xs[k + 1] == xs[k] / 2
  {
    Halves(x);
    var xs := Halved(x);
    forall k | 0 <= k < 7 ensures xs[k + 1] == xs[k] / 2 {
      assert k == 0 || k == 1 || k == 2 || k == 3 || k == 4 || k == 5 || k == 6;
    }
  }

  lemma BitAt(a: Bytes, k: nat, j: nat)
    requires k < |a| && j < 8
    ensures Bit(a, 8 * k + 7 - j) <==> Halved(a[k] as int)[j] % 2 == 1
  {
    assert (8 * k + 7 - j) / 8 == k && (8 * k + 7 - j) % 8 == 7 - j;
    assert j == 0 || j == 1 || j == 2 || j == 3 || j == 4 || j == 5 || j == 6 || j == 7;
  }

  /** Addresses whose bits agree up to the end of a byte agree on it. */
  lemma SameByte(a: Bytes, b: Bytes, k: nat, n: nat)
    requires k < |a| == |b| && 8 * k + 8 <= n <= 8 * |a| && AgreeUpTo(a, b, n)
    ensures a[k] == b[k]
  {
    hide Bit, Halved;
    HalvedSteps(a[k] as int);
    HalvedSteps(b[k] as int);
    var xs, ys := Halved(a[k] as int), Halved(b[k] as int);
    forall j | 0 <= j < 8 ensures xs[j] % 2 == ys[j] % 2 {
      BitAt(a, k, j);
      BitAt(b, k, j);
      assert Bit(a, 8 * k + 7 - j) <==> Bit(b, 8 * k + 7 - j);
    }
    ByteOfBits(a[k] as int, b[k] as int);
  }

  // ----- which addresses a rule is about -----

  /** Masking away fewer than the first 96 bits, or none of them, decides whether a network is IPv4-mapped. */
  lemma MaskedMapped(r: Rule)
    requires Parsed(r) && |r.net.ip| == 16
    ensures To4(r.net.ip).Some? <==> To4(r.ip).Some? && r.net.prefix >= 96
  {
    hide Bit, Prefix;
    var m, ip := r.net.ip, r.ip;
    if r.net.prefix >= 96 {
      assert AgreeUpTo(m, ip, 96);
      forall k | 0 <= k < 12 ensures m[k] == ip[k] {
        SameByte(m, ip, k, 96);
      }
    } else {
      BitAt(m, 11, 0);
      assert !Bit(m, 95);
    }
  }

  /** For a rule filed well, containing an address is a matter of its family and its first bits. */
  lemma WellFiledContains(r: Rule, ip: Bytes)
    requires Parsed(r) && WellFiled(r) && (|ip| == 4 || |ip| == 16)
    ensures Contains(r.net, ip) <==> To4(r.ip).Some? == To4(ip).Some? && NetBits(r.net) <= AddressBits(ip)
    ensures To4(r.ip).Some? == To4(ip).Some? ==> |r.net.ip| == |Canonical(ip)|
  {
    hide Bit, Prefix, Masked;
    if |r.net.ip| == 16 {
      MaskedMapped(r);
    }
    if To4(r.ip).Some? == To4(ip).Some? {
      AgreeIsPrefix(r.net.ip, Canonical(ip), r.net.prefix);
    }
  }

  /** What a misfiled rule makes the IPv4 trie answer for: addresses that begin with zeros, as many as its prefix has bits. */
  ghost predicate Hits(r: Rule, ip: Bytes)
  {
    To4(ip).Some? && forall i :: 0 <= i < 32 && i < r.net.prefix ==> !Bit(To4(ip).value, i)
  }

  lemma MisfiledHits(r: Rule, ip: Bytes)
    requires Parsed(r) && !WellFiled(r) && To4(ip).Some?
    ensures Hits(r, ip) <==> NetBits(r.net) <= AddressBits(ip) || AddressBits(ip) <= NetBits(r.net)
  {
    hide Bit, Prefix;
    var p, b := NetBits(r.net), AddressBits(ip);
    forall i | 0 <= i < |p| && i < 32 ensures !p[i] {
      assert r.ip[i / 8] == 0;
      ZeroBit(r.ip, i);
    }
    if Hits(r, ip) {
      assert forall i :: 0 <= i < 32 && i < |p| ==> p[i] == b[i];
      if |p| <= 32 {
        assert p == b[..|p|];
      } else {
        assert b == p[..32];
      }
    }
    if p <= b {
      assert forall i :: 0 <= i < |p| ==> p[i] == b[i];
    }
    if b <= p {
      assert forall i :: 0 <= i < 32 ==> p[i] == b[i];
    }
  }

  lemma ZeroBit(ip: Bytes, i: nat)
    requires i < 8 * |ip| && ip[i / 8] == 0
    ensures !Bit(ip, i)
  {
  }

  /** What it should answer for: IPv4 addresses of its block from 96 bits on, and IPv6 addresses before. */
  lemma MisfiledContains(r: Rule, ip: Bytes)
    requires Parsed(r) && !WellFiled(r) && (|ip| == 4 || |ip| == 16)
    ensures r.net.prefix >= 96 ==>
              && To4(r.net.ip).Some?
              && (Contains(r.net, ip) <==> To4(ip).Some? && AgreeUpTo(To4(r.net.ip).value, To4(ip).value, r.net.prefix - 96))
    ensures r.net.prefix < 96 ==> (Contains(r.net, ip) <==> To4(ip).None? && AgreeUpTo(r.net.ip, ip, r.net.prefix))
  {
    hide Bit, Masked;
    MaskedMapped(r);
  }

  // ----- lists of rules -----

  /** The networks in the trie of a family are those of the rules filed there. */
  ghost predicate Files(rules: set<Rule>, v4: bool, nets: set<Bits>)
  {
    && (forall r :: r in rules ==> NetOk(r.net))
    && (forall r :: r in rules && To4(r.ip).Some? == v4 ==> NetBits(r.net) in nets)
    && (forall p :: p in nets ==> exists r :: FiledAs(rules, v4, p, r))
  }

  ghost predicate FiledAs(rules: set<Rule>, v4: bool, p: Bits, r: Rule)
  {
    r in rules && To4(r.ip).Some? == v4 && NetOk(r.net) && NetBits(r.net) == p
  }

  ghost predicate AllParsed(rules: set<Rule>)
  {
    forall r :: r in rules ==> Parsed(r)
  }

  /** The answer for an address that some, or no, rule contains. */
  ghost predicate Right(rules: set<Rule>, ip: Bytes, res: Option<nat>)
    requires AllParsed(rules)
  {
    res.Some? <==> exists r :: r in rules && Contains(r.net, ip)
  }

  /** How a rule comes to be found for an address. */
  ghost predicate Found(r: Rule, ip: Bytes)
    requires Parsed(r)
  {
    if WellFiled(r) then Contains(r.net, ip) else Hits(r, ip)
  }

  lemma FoundInTrie(r: Rule, ip: Bytes)
    requires Parsed(r) && (|ip| == 4 || |ip| == 16)
    ensures Found(r, ip) <==>
            To4(r.ip).Some? == To4(ip).Some? && (NetBits(r.net) <= AddressBits(ip) || AddressBits(ip) <= NetBits(r.net))
  {
    hide Bit, Prefix, Masked;
    if WellFiled(r) {
      WellFiledContains(r, ip);
      var p, b := NetBits(r.net), AddressBits(ip);
      assert b <= p && |p| <= |b| ==> p == b;
    } else if To4(ip).Some? {
      MisfiledHits(r, ip);
    }
  }

  /** An address is found exactly if some rule, in its way, finds it. */
  lemma FoundExactly(rules: set<Rule>, nets: set<Bits>, ip: Bytes, res: Option<nat>)
    requires AllParsed(rules) && (|ip| == 4 || |ip| == 16)
    requires Files(rules, To4(ip).Some?, nets) && IsAnswer(nets, AddressBits(ip), res)
    ensures res.Some? <==> exists r :: r in rules && Found(r, ip)
  {
    hide Found, Parsed, NetBits, AddressBits, To4;
    var b := AddressBits(ip);
    if res.Some? {
      var n :| n in nets && (n <= b || b <= n);
      var r :| FiledAs(rules, To4(ip).Some?, n, r);
      FoundInTrie(r, ip);
    }
    if r :| r in rules && Found(r, ip) {
      FoundInTrie(r, ip);
    }
  }

  /** A rule filed well contains the address, or the misfiled ones hit it just when one of them contains it. */
  ghost predicate Harmless(rules: set<Rule>, ip: Bytes)
    requires AllParsed(rules)
  {
    || (exists r :: r in rules && WellFiled(r) && Contains(r.net, ip))
    || ((exists r :: r in rules && !WellFiled(r) && Hits(r, ip)) <==>
        (exists r :: r in rules && !WellFiled(r) && Contains(r.net, ip)))
  }

  /** The network reported is the shortest that contains the address. */
  ghost predicate Shortest(rules: set<Rule>, ip: Bytes, bits: nat)
    requires AllParsed(rules)
  {
    && (exists r :: r in rules && Contains(r.net, ip) && r.net.prefix == bits)
    && (forall r :: r in rules && Contains(r.net, ip) ==> bits <= r.net.prefix)
  }

  /**
   * For every list and every address: the answer is right exactly if a rule filed
   * well contains the address, or the misfiled ones hit it just when one of them
   * contains it.
   */
  lemma RightExactly(rules: set<Rule>, nets: set<Bits>, ip: Bytes, res: Option<nat>)
    requires AllParsed(rules) && (|ip| == 4 || |ip| == 16)
    requires Files(rules, To4(ip).Some?, nets) && IsAnswer(nets, AddressBits(ip), res)
    ensures Right(rules, ip, res) <==> Harmless(rules, ip)
  {
    hide Parsed, Contains, Hits, WellFiled, NetBits, AddressBits, To4, IsAnswer, Files;
    FoundExactly(rules, nets, ip, res);
  }

  /** With every rule filed well, answers are right for both families, and the network reported is the shortest that contains the address. */
  lemma RightWhenFiledWell(rules: set<Rule>, nets: set<Bits>, ip: Bytes, res: Option<nat>)
    requires AllParsed(rules) && (|ip| == 4 || |ip| == 16) && forall r :: r in rules ==> WellFiled(r)
    requires Files(rules, To4(ip).Some?, nets) && IsAnswer(nets, AddressBits(ip), res)
    ensures Right(rules, ip, res) && (res.Some? ==> Shortest(rules, ip, res.value))
  {
    hide Masked, Bit, Prefix, To4, WellFiled, Contains;
    RightExactly(rules, nets, ip, res);
    var b := AddressBits(ip);
    if res.Some? {
      forall r | r in rules && Contains(r.net, ip) ensures NetBits(r.net) in nets && NetBits(r.net) <= b && |NetBits(r.net)| == r.net.prefix {
        WellFiledContains(r, ip);
      }
      var r :| FiledAs(rules, To4(ip).Some?, b[..res.value], r);
      WellFiledContains(r, ip);
    }
  }

  // ----- misfiled rules -----

  const ZERO: Bytes := [0, 0, 0, 0]

  /** The one network a misfiled rule is harmless with: ::ffff:0.0.0.0/128. */
  ghost predicate JustZero(n: Net)
  {
    n.prefix == 128 && |n.ip| == 16 && n.ip[12..] == ZERO
  }

  /** An address a misfiled rule is wrong about: 0.0.0.0 below 96 bits, else the network's own or, for a larger block of it, 0.0.0.1. */
  function Misjudged(n: Net): Bytes
    requires |n.ip| == 16
  {
    if n.prefix < 96 then ZERO else if n.ip[12..] != ZERO then n.ip[12..] else [0, 0, 0, 1]
  }

  /** Every IPv4-mapped rule, whatever its prefix, misjudges an address, but for the one that holds 0.0.0.0 alone. */
  lemma MisfiledIsWrong(r: Rule)
    requires Parsed(r) && !WellFiled(r) && !JustZero(r.net)
    ensures Contains(r.net, Misjudged(r.net)) != Hits(r, Misjudged(r.net))
  {
    hide Bit, Masked, Contains;
    var n, ip := r.net, Misjudged(r.net);
    MisfiledContains(r, ip);
    if n.prefix < 96 {
      ZeroHits(r);
    } else {
      OwnBlock(r);
      if forall i :: 0 <= i < 32 ==> !Bit(ip, i) {
        AllZero(ip);
        assert false;
      }
    }
  }

  lemma ZeroHits(r: Rule)
    ensures Hits(r, ZERO)
  {
    forall i | 0 <= i < 32 ensures !Bit(ZERO, i) {
      ZeroBit(ZERO, i);
    }
  }

  lemma AllZero(ip: Bytes)
    requires |ip| == 4 && forall i :: 0 <= i < 32 ==> !Bit(ip, i)
    ensures ip == ZERO
  {
    hide Bit;
    forall i | 0 <= i < 32 ensures !Bit(ZERO, i) {
      ZeroBit(ZERO, i);
    }
    forall k | 0 <= k < 4 ensures ip[k] == ZERO[k] {
      SameByte(ip, ZERO, k, 32);
    }
  }

  /** A block contains its own number, and 0.0.0.1 unless it is a single address. */
  lemma OwnBlock(r: Rule)
    requires Parsed(r) && !WellFiled(r) && r.net.prefix >= 96 && !JustZero(r.net)
    ensures To4(r.net.ip) == Some(r.net.ip[12..])
    ensures AgreeUpTo(r.net.ip[12..], Misjudged(r.net), r.net.prefix - 96)
  {
    hide Masked;
    MaskedMapped(r);
    if r.net.ip[12..] == ZERO {
      forall i | 0 <= i < 31 ensures !Bit([0, 0, 0, 1], i) && !Bit(ZERO, i) {
        ZeroBit(ZERO, i);
        assert i / 8 == 3 ==> BIT_MASK[i % 8] > 1;
      }
    }
  }

  /** A misfiled rule alone in a list is judged right for every address exactly if it is that one. */
  lemma MisfiledAlone(r: Rule)
    requires Parsed(r) && !WellFiled(r)
    ensures (forall ip :: |ip| == 4 || |ip| == 16 ==> (Contains(r.net, ip) <==> Hits(r, ip))) <==> JustZero(r.net)
  {
    hide Bit, Masked, Contains;
    if JustZero(r.net) {
      forall ip | |ip| == 4 || |ip| == 16 ensures Contains(r.net, ip) <==> Hits(r, ip) {
        MisfiledContains(r, ip);
        MaskedMapped(r);
        forall i | 0 <= i < 32 ensures !Bit(ZERO, i) {
          ZeroBit(ZERO, i);
        }
      }
    } else {
      MisfiledIsWrong(r);
      assert |Misjudged(r.net)| == 4;
    }
  }

  // ----- the database -----

  /** One trie per address family. */
  class DB {
    const ip4: Trie
    const ip6: Trie
    /** The rules loaded. */
    ghost var rules: set<Rule>

    ghost predicate Valid()
      reads this, ip4, ip4.at.Values, ip6, ip6.at.Values
    {
      && ip4 != ip6 && ip4.at.Values !! ip6.at.Values && ip4.Valid() && ip6.Valid()
      && Files(rules, true, ip4.nets) && Files(rules, false, ip6.nets)
    }

    constructor ()
      ensures Valid() && rules == {}
    {
      ip4 := new Trie();
      ip6 := new Trie();
      rules := {};
    }

    /** The trie a rule goes to depends on the address written, whatever width its network has. */
    method Load(ip: Bytes, n: Net)
      requires Valid() && NetOk(n)
      modifies this, ip4, ip6, ip4.at.Values, ip6.at.Values
      ensures Valid() && rules == old(rules) + {Rule(ip, n)}
    {
      hide InTree, Shaped, NetBits, To4, Files;
      FilesMore(rules, true, ip4.nets, Rule(ip, n));
      FilesMore(rules, false, ip6.nets, Rule(ip, n));
      if To4(ip).None? {
        ip6.Add(n);
      } else {
        ip4.Add(n);
      }
      rules := rules + {Rule(ip, n)};
    }

    /** Match: right exactly where the rules filed well and the misfiled ones allow; always right if none is misfiled. */
    method Match(ip: Bytes) returns (res: Option<nat>)
      requires Valid() && |ip| in {0, 4, 16}
      ensures ip == [] ==> res.None?
      ensures ip != [] ==> IsAnswer(if To4(ip).Some? then ip4.nets else ip6.nets, AddressBits(ip), res)
      ensures ip != [] && AllParsed(rules) ==> (Right(rules, ip, res) <==> Harmless(rules, ip))
      ensures ip != [] && AllParsed(rules) && (forall r :: r in rules ==> WellFiled(r)) ==>
                Right(rules, ip, res) && (res.Some? ==> Shortest(rules, ip, res.value))
    {
      hide Files, Right, Harmless, Shortest, WellFiled, Contains, IsAnswer, To4, AddressBits, AllParsed, InTree, Shaped;
      if |ip| == 0 {
        return None;
      }
      if To4(ip).None? {
        res := ip6.HasIP(ip);
      } else {
        res := ip4.HasIP(ip);
      }
      ghost var nets := if To4(ip).Some? then ip4.nets else ip6.nets;
      if AllParsed(rules) {
        RightExactly(rules, nets, ip, res);
        if forall r :: r in rules ==> WellFiled(r) {
          RightWhenFiledWell(rules, nets, ip, res);
        }
      }
    }
  }

  lemma FilesMore(rules: set<Rule>, v4: bool, nets: set<Bits>, r: Rule)
    requires Files(rules, v4, nets) && NetOk(r.net)
    ensures Files(rules + {r}, v4, if To4(r.ip).Some? == v4 then nets + {NetBits(r.net)} else nets)
  {
    hide To4, NetBits;
    var rules', nets' := rules + {r}, if To4(r.ip).Some? == v4 then nets + {NetBits(r.net)} else nets;
    forall p | p in nets' ensures exists x :: FiledAs(rules', v4, p, x) {
      if p in nets {
        var x :| FiledAs(rules, v4, p, x);
        assert FiledAs(rules', v4, p, x);
      } else {
        assert FiledAs(rules', v4, p, r);
      }
    }
  }
}
