/**
 * The CIDR block list: a binary trie of networks that keeps only the shortest
 * prefixes, walked bit by bit.
 */
module CidrTrie {
  import opened Octets

  type Bits = seq<bool>

  const BIT_MASK: seq<nat> := [128, 64, 32, 16, 8, 4, 2, 1]

  /** The n'th bit of an address from the left. */
  predicate Bit(ip: Bytes, n: nat)
    requires n < 8 * |ip|
  {
    ip[n / 8] as int / BIT_MASK[n % 8] % 2 == 1
  }

  /** The first n bits of an address. */
  function Prefix(ip: Bytes, n: nat): (b: Bits)
    requires n <= 8 * |ip|
    ensures |b| == n && forall i :: 0 <= i < n ==> b[i] == Bit(ip, i)
  {
    if n == 0 then [] else Prefix(ip, n - 1) + [Bit(ip, n - 1)]
  }

  /** The four-byte form of an IPv4 address, mapped or not. */
  function To4(ip: Bytes): (r: Option<Bytes>)
    ensures r.Some? ==> |r.value| == 4
  {
    if |ip| == 4 then Some(ip)
    else if |ip| == 16 && (forall k :: 0 <= k < 10 ==> ip[k] == 0) && ip[10] == 255 && ip[11] == 255 then Some(ip[12..])
    else None
  }

  /** The form of an address that is walked. */
  function Canonical(ip: Bytes): Bytes
  {
    if To4(ip).Some? then To4(ip).value else ip
  }

  /** A network: an address and how many of its bits count. */
  datatype Net = Net(ip: Bytes, prefix: nat)

  predicate NetOk(n: Net)
  {
    n.prefix <= 8 * |n.ip|
  }

  /** The bits of a network that count. */
  function NetBits(n: Net): Bits
    requires NetOk(n)
  {
    Prefix(n.ip, n.prefix)
  }

  /** All bits of an address. */
  function AddressBits(ip: Bytes): Bits
  {
    Prefix(Canonical(ip), 8 * |Canonical(ip)|)
  }

  // ----- which paths the trie has -----

  /** A path leads to a network and does not go past one. */
  ghost predicate InTree(nets: set<Bits>, p: Bits)
  {
    (exists n :: n in nets && p <= n) && forall n :: n in nets ==> !(n < p)
  }

  lemma PrefixesComparable(a: Bits, b: Bits, c: Bits)
    requires a <= c && b <= c
    ensures a <= b || b < a
  {
    if |a| <= |b| {
      assert a == b[..|a|];
    } else {
      assert b == a[..|b|];
    }
  }

  /** A network below one that is already there changes nothing. */
  lemma CoveredAdds(nets: set<Bits>, m: Bits, n: Bits, p: Bits)
    requires m in nets && m <= n
    ensures InTree(nets + {n}, p) <==> InTree(nets, p)
    ensures InTree(nets, p) ==> (p in nets + {n} <==> p in nets)
  {
    if p <= n {
      PrefixesComparable(p, m, n);
    }
    if n < p {
      assert m < p;
    }
    if p == n && !(m < n) {
      assert m == n;
    }
  }

  /** Any other network adds its own prefixes and cuts off what lies below it. */
  lemma NewAdds(nets: set<Bits>, n: Bits, p: Bits)
    requires forall m :: m in nets ==> !(m < n)
    ensures InTree(nets + {n}, p) <==> (InTree(nets, p) || p <= n) && !(n < p)
  {
    if p <= n {
      assert n in nets + {n};
      forall m | m in nets + {n} ensures !(m < p) {
        assert m < p ==> m < n;
      }
    }
    if InTree(nets + {n}, p) && !(p <= n) {
      var m :| m in nets + {n} && p <= m;
      assert m in nets;
    }
  }

  /** Half way down to a new network: the paths so far, and no network on the way. */
  ghost predicate Descending(nets: set<Bits>, n: Bits, i: nat, paths: set<Bits>)
  {
    && i <= |n|
    && (forall p :: p in paths <==> InTree(nets, p) || p <= n[..i])
    && (forall m :: m in nets ==> !(m < n[..i]))
  }

  lemma DescentStart(nets: set<Bits>, n: Bits, paths: set<Bits>)
    requires forall p :: p in paths <==> InTree(nets, p) || p == []
    ensures Descending(nets, n, 0, paths)
  {
    var t := n[..0];
    forall p ensures p in paths <==> InTree(nets, p) || p <= t {
      assert p <= t <==> p == [];
    }
  }

  lemma DescentStep(nets: set<Bits>, n: Bits, i: nat, paths: set<Bits>)
    requires i < |n| && Descending(nets, n, i, paths) && n[..i] !in nets
    ensures Descending(nets, n, i + 1, paths + {n[..i + 1]})
    ensures n[..i + 1] !in paths ==> n[..i + 1] !in nets
  {
    var t, u := n[..i], n[..i + 1];
    forall p ensures p in paths + {u} <==> InTree(nets, p) || p <= u {
      assert p <= u <==> p <= t || p == u;
    }
    forall m | m in nets ensures !(m < u) {
      assert m < u ==> m == t || m < t;
    }
  }

  /** At the end of the network or at one that covers it, cropping leaves just the new tree. */
  lemma DescentEnd(nets: set<Bits>, n: Bits, i: nat, paths: set<Bits>, p: Bits)
    requires Descending(nets, n, i, paths) && (i == |n| || n[..i] in nets)
    ensures p in paths && !(n[..i] < p) <==> InTree(nets + {n}, p)
    ensures InTree(nets + {n}, p) ==> (p in nets + {n} <==> p in nets || p == n[..i])
  {
    hide InTree;
    var t := n[..i];
    NewAdds(nets, t, p);
    if i == |n| {
      assert t == n;
    } else {
      assert nets + {t} == nets;
      CoveredAdds(nets, t, n, p);
    }
  }

  // ----- what a walk along an address finds -----

  /**
   * The answer for an address: yes exactly if a network contains it or lies
   * below it, and then the shortest network that contains it, the whole address
   * if none does.
   */
  ghost predicate IsAnswer(nets: set<Bits>, b: Bits, r: Option<nat>)
  {
    && (r.Some? <==> exists n :: n in nets && (n <= b || b <= n))
    && (r.Some? ==>
          && r.value <= |b|
          && (forall n :: n in nets && n <= b ==> b[..r.value] in nets && r.value <= |n|)
          && ((forall n :: n in nets ==> !(n <= b)) ==> r.value == |b|))
  }

  lemma FoundAtLeaf(nets: set<Bits>, b: Bits, i: nat)
    requires i <= |b| && InTree(nets, b[..i]) && b[..i] in nets
    ensures IsAnswer(nets, b, Some(i))
  {
    assert b[..i] <= b;
    var t := b[..i];
    forall n | n in nets && n <= b ensures i <= |n| {
      assert |n| < i ==> n < t;
    }
  }

  lemma FoundAtEnd(nets: set<Bits>, b: Bits)
    requires InTree(nets, b)
    ensures IsAnswer(nets, b, Some(|b|))
  {
    assert b[..|b|] == b;
    forall n | n in nets && n <= b ensures n == b {
    }
  }

  lemma NotFound(nets: set<Bits>, b: Bits, i: nat)
    requires i < |b| && InTree(nets, b[..i]) && b[..i] !in nets && !InTree(nets, b[..i + 1])
    ensures IsAnswer(nets, b, None)
  {
    var t, u := b[..i], b[..i + 1];
    forall n | n in nets ensures !(n < u) {
      assert n < u ==> n == t || n < t;
    }
    forall n | n in nets ensures !(n <= b) && !(b <= n) {
      assert n <= b && |n| <= i ==> n < u;
      assert (n <= b && |n| > i) || b <= n ==> u <= n;
    }
  }

  // ----- the trie -----

  class Node {
    var left: Node?
    var right: Node?
    var leaf: bool

    constructor ()
      ensures left == null && right == null && !leaf
    {
      left, right, leaf := null, null, false;
    }

    function Child(b: bool): Node?
      reads this
    {
      if b then right else left
    }
  }

  /** A path one bit longer. */
  ghost function Ext(p: Bits, b: bool): (q: Bits)
    ensures |q| == |p| + 1 && q[..|p|] == p && q[|p|] == b
  {
    p + [b]
  }

  ghost predicate Injective(at: map<Bits, Node>)
  {
    forall p, q :: p in at && q in at && at[p] == at[q] ==> p == q
  }

  ghost predicate Closed(at: map<Bits, Node>)
  {
    forall p, b :: Ext(p, b) in at ==> p in at
  }

  /** A node's children are the nodes one bit further on. */
  ghost predicate Linked(at: map<Bits, Node>)
    reads at.Values
  {
    forall p, b :: p in at ==> at[p].Child(b) == if Ext(p, b) in at then at[Ext(p, b)] else null
  }

  /** The nodes by their paths. */
  ghost predicate Shaped(root: Node, at: map<Bits, Node>)
    reads at.Values
  {
    [] in at && at[[]] == root && Injective(at) && Closed(at) && Linked(at)
  }

  lemma ExtInjective(p: Bits, b: bool, q: Bits, c: bool)
    requires Ext(p, b) == Ext(q, c)
    ensures p == q && b == c
  {
  }

  lemma GrownPaths(at: map<Bits, Node>, path: Bits, b: bool, child: Node)
    requires Injective(at) && Closed(at) && path in at && Ext(path, b) !in at && child !in at.Values
    ensures var at' := at[Ext(path, b) := child]; Injective(at') && Closed(at')
    ensures forall c :: Ext(Ext(path, b), c) !in at && Ext(Ext(path, b), c) != Ext(path, b)
    ensures forall p, c :: Ext(p, c) == Ext(path, b) ==> p == path && c == b
  {
    var at' := at[Ext(path, b) := child];
    forall p, q | p in at' && q in at' && at'[p] == at'[q] ensures p == q {
      assert p in at ==> at[p] in at.Values;
      assert q in at ==> at[q] in at.Values;
    }
    forall p, c | Ext(p, c) in at' ensures p in at' {
      if Ext(p, c) == Ext(path, b) { ExtInjective(p, c, path, b); }
    }
  }

  function Cropped(at: map<Bits, Node>, path: Bits): (at': map<Bits, Node>)
    ensures forall q :: q in at' <==> q in at && !(path < q)
    ensures forall q :: q in at' ==> at'[q] == at[q]
  {
    map q | q in at && !(path < q) :: at[q]
  }

  lemma CroppedPaths(at: map<Bits, Node>, path: Bits)
    requires Injective(at) && Closed(at) && path in at
    ensures Injective(Cropped(at, path)) && Closed(Cropped(at, path)) && path in Cropped(at, path)
    ensures [] in at ==> [] in Cropped(at, path)
    ensures forall p, b :: p in Cropped(at, path) ==>
              (Ext(p, b) in Cropped(at, path) <==> Ext(p, b) in at && p != path)
  {
    forall p, b ensures path < Ext(p, b) <==> path <= p {
      Longer(path, p, b);
    }
  }

  lemma Longer(path: Bits, p: Bits, b: bool)
    ensures path < Ext(p, b) <==> path <= p
  {
  }

  class Trie {
    var root: Node?
    ghost var at: map<Bits, Node>
    /** The networks added so far. */
    ghost var nets: set<Bits>

    ghost predicate Valid()
      reads this, at.Values
    {
      && (root == null <==> nets == {})
      && (root == null ==> at == map[])
      && (root != null ==> Shaped(root, at))
      && (forall p :: p in at <==> InTree(nets, p))
      && (forall p :: p in at ==> (at[p].leaf <==> p in nets))
    }

    constructor ()
      ensures Valid() && nets == {}
    {
      root, at, nets := null, map[], {};
    }

    /** hasIP: how many bits of the address the network that covers it has, if one does. */
    method HasIP(ip: Bytes) returns (r: Option<nat>)
      requires Valid() && (|ip| == 4 || |ip| == 16)
      ensures IsAnswer(nets, AddressBits(ip), r)
    {
      hide IsAnswer, InTree, Bit;
      if root == null {
        NoNets(AddressBits(ip));
        return None;
      }
      var p: Node := root;
      var size := 32;
      var addr := ip;
      if To4(ip).None? {
        size := 128;
      } else {
        addr := To4(ip).value;
      }
      ghost var b := Prefix(addr, size);
      assert b[..0] == [];
      var i := 0;
      while i < size
        invariant 0 <= i <= size && b[..i] in at && p == at[b[..i]]
      {
        if p.leaf {
          FoundAtLeaf(nets, b, i);
          return Some(i);
        }
        Below(p, b, i);
        if Bit(addr, i) {
          if p.right == null {
            NotFound(nets, b, i);
            return None;
          }
          p := p.right;
        } else {
          if p.left == null {
            NotFound(nets, b, i);
            return None;
          }
          p := p.left;
        }
        i := i + 1;
      }
      assert b[..i] == b;
      FoundAtEnd(nets, b);
      return Some(size);
    }

    /** One step down, with a new node if there is none yet. */
    method Grow(p: Node, ghost path: Bits, b: bool) returns (child: Node)
      requires root != null && Shaped(root, at) && path in at && at[path] == p
      modifies this`at, p`left, p`right
      ensures Shaped(root, at) && Ext(path, b) in at && child == at[Ext(path, b)]
      ensures at.Keys == old(at.Keys) + {Ext(path, b)}
      ensures forall q :: q in old(at) ==> at[q] == old(at)[q]
      ensures Ext(path, b) !in old(at) ==> fresh(child) && !child.leaf
    {
      hide Closed;
      if p.Child(b) != null {
        return p.Child(b);
      }
      child := new Node();
      GrownPaths(at, path, b, child);
      if b {
        p.right := child;
      } else {
        p.left := child;
      }
      at := at[Ext(path, b) := child];
    }

    /** Marks the node as a leaf and drops everything below it. */
    method Cut(p: Node, ghost path: Bits)
      requires root != null && Shaped(root, at) && path in at && at[path] == p
      modifies this`at, p
      ensures Shaped(root, at) && p.leaf && at == Cropped(old(at), path)
    {
      hide Closed, Cropped;
      CroppedPaths(at, path);
      p.left := null;
      p.right := null;
      p.leaf := true;
      at := Cropped(at, path);
    }

    /** add: down to the new network's node, or to one that covers it, and nothing below. */
    method Add(n: Net)
      requires Valid() && NetOk(n)
      modifies this, at.Values
      ensures Valid() && nets == old(nets) + {NetBits(n)}
      ensures fresh(at.Values - old(at.Values))
    {
      hide InTree, Descending, Injective, Closed, Linked, Bit, Shaped, Half;
      var p, i := Walk(n);
      InHalf(Prefix(n.ip, n.prefix), i, p);
      Settle(p, Prefix(n.ip, n.prefix), i);
    }

    /** Half way down to a network, at the node for its first bits. */
    ghost predicate Half(b: Bits, i: nat, p: Node)
      reads this, at.Values
    {
      && root != null && Shaped(root, at) && i <= |b|
      && b[..i] in at && p == at[b[..i]] && Descending(nets, b, i, at.Keys)
      && forall q :: q in at ==> (at[q].leaf <==> q in nets)
    }

    /** The loop of add. */
    method Walk(n: Net) returns (p: Node, i: nat)
      requires Valid() && NetOk(n)
      modifies this`root, this`at, at.Values`left, at.Values`right
      ensures Half(Prefix(n.ip, n.prefix), i, p) && nets == old(nets)
      ensures i == n.prefix || p.leaf
      ensures fresh(at.Values - old(at.Values))
    {
      hide InTree, Descending, Shaped, Bit, Half;
      ghost var b := Prefix(n.ip, n.prefix);
      p := Root(b);
      i := 0;
      while i < n.prefix
        invariant 0 <= i <= n.prefix && Half(b, i, p) && nets == old(nets) && fresh(at.Values - old(at.Values))
      {
        if p.leaf {
          break;
        }
        InHalf(b, i, p);
        p := Down(p, b, i, Bit(n.ip, i));
        i := i + 1;
      }
    }

    lemma InHalf(b: Bits, i: nat, p: Node)
      requires Half(b, i, p)
      ensures p in at.Values
    {
    }

    /** One round of it. */
    method Down(p: Node, ghost b: Bits, ghost i: nat, bit: bool) returns (child: Node)
      requires Half(b, i, p) && i < |b| && bit == b[i] && !p.leaf
      modifies this`at, p`left, p`right
      ensures Half(b, i + 1, child) && fresh(at.Values - old(at.Values))
    {
      hide InTree, Descending, Shaped;
      DescentStep(nets, b, i, at.Keys);
      assert b[..i + 1] == Ext(b[..i], b[i]);
      child := Grow(p, b[..i], bit);
    }

    method Root(ghost b: Bits) returns (p: Node)
      requires Valid()
      modifies this`root, this`at
      ensures Half(b, 0, p) && nets == old(nets) && fresh(at.Values - old(at.Values))
    {
      if root == null {
        root := new Node();
        at := map[[] := root];
      }
      p := root;
      DescentStart(nets, b, at.Keys);
      assert b[..0] == [];
    }

    /** The end of add. */
    method Settle(p: Node, ghost b: Bits, ghost i: nat)
      requires Half(b, i, p) && (i == |b| || p.leaf)
      modifies this`at, this`nets, p
      ensures Valid() && nets == old(nets) + {b} && at.Values <= old(at.Values)
    {
      hide InTree, Descending, Closed, Linked, Cropped;
      forall q ensures q in at && !(b[..i] < q) <==> InTree(nets + {b}, q)
               ensures InTree(nets + {b}, q) ==> (q in nets + {b} <==> q in nets || q == b[..i]) {
        DescentEnd(nets, b, i, at.Keys, q);
      }
      Cut(p, b[..i]);
      nets := nets + {b};
    }

    lemma Below(p: Node, b: Bits, i: nat)
      requires Valid() && root != null && i < |b| && b[..i] in at && p == at[b[..i]]
      ensures p.Child(b[i]) != null <==> b[..i + 1] in at
      ensures b[..i + 1] in at ==> p.Child(b[i]) == at[b[..i + 1]]
    {
      hide InTree;
      assert b[..i + 1] == Ext(b[..i], b[i]);
    }
  }

  lemma NoNets(b: Bits)
    ensures IsAnswer({}, b, None)
  {
  }

  // ----- what the answer means -----

  /** Some network contains the address. */
  ghost predicate Covered(nets: set<Bits>, b: Bits)
  {
    exists n :: n in nets && n <= b
  }

  /** With no network longer than the address, yes means contained, and the network reported is the shortest. */
  lemma AnswerExact(nets: set<Bits>, b: Bits, r: Option<nat>)
    requires IsAnswer(nets, b, r) && forall n :: n in nets ==> |n| <= |b|
    ensures r.Some? <==> Covered(nets, b)
    ensures r.Some? ==> r.value <= |b| && b[..r.value] in nets && forall n :: n in nets && n <= b ==> r.value <= |n|
  {
    if r.Some? {
      var n :| n in nets && (n <= b || b <= n);
      assert b <= n ==> b == n;
    }
  }

  /** Every network longer than the addresses lies below one that is not. */
  ghost predicate LongCovered(nets: set<Bits>, width: nat)
  {
    forall n :: n in nets && |n| > width ==> Covered(nets, n[..width])
  }

  /** Answers are right for all addresses of a width exactly if every longer network is covered by a shorter one. */
  lemma RightIff(nets: set<Bits>, width: nat)
    ensures (forall b: Bits, r :: |b| == width && IsAnswer(nets, b, r) ==> (r.Some? <==> Covered(nets, b)))
            <==> LongCovered(nets, width)
  {
    if LongCovered(nets, width) {
      forall b: Bits, r | |b| == width && IsAnswer(nets, b, r) ensures r.Some? <==> Covered(nets, b) {
        if r.Some? {
          var n :| n in nets && (n <= b || b <= n);
          assert b <= n ==> b == n || b == n[..width];
        }
      }
    } else {
      var n :| n in nets && |n| > width && !Covered(nets, n[..width]);
      var b := n[..width];
      assert b <= n;
      LongAnswer(nets, b, n);
    }
  }

  lemma LongAnswer(nets: set<Bits>, b: Bits, n: Bits)
    requires n in nets && b <= n && !Covered(nets, b)
    ensures IsAnswer(nets, b, Some(|b|))
  {
  }
}
