/**
 * DNSSEC canonical name order (section 6.1 of RFC 4034).
 *
 * A name is the sequence of its raw, lower-cased labels from the top level
 * domain down, so an ancestor is a prefix and the root is the empty sequence.
 */
module CanonicalOrder {
  import opened Octets

  type Label = Bytes
  type Name = seq<Label>

  const STAR: Label := [42]

  /** The wildcard directly below a name. */
  function Wildcard(ce: Name): Name
  {
    ce + [STAR]
  }

  /** bytes.Compare < 0 */
  predicate LabelLess(a: Label, b: Label)
  {
    if b == [] then false
    else if a == [] then true
    else if a[0] == b[0] then LabelLess(a[1..], b[1..])
    else a[0] < b[0]
  }

  /** The order: label by label from the top, an ancestor before what is below it. */
  predicate Less(a: Name, b: Name)
  {
    if b == [] then false
    else if a == [] then true
    else if a[0] == b[0] then Less(a[1..], b[1..])
    else LabelLess(a[0], b[0])
  }

  predicate AtMost(a: Name, b: Name)
  {
    a == b || Less(a, b)
  }

  /** dns.IsSubDomain(ancestor, name) */
  predicate AtOrUnder(name: Name, ancestor: Name)
  {
    ancestor <= name
  }

  /** dns.CompareDomainName: how many labels two names share, counted from the top. */
  function Common(a: Name, b: Name): (n: nat)
    ensures n <= |a| && n <= |b| && a[..n] == b[..n]
    ensures n < |a| && n < |b| ==> a[n] != b[n]
  {
    if a == [] || b == [] || a[0] != b[0] then 0
    else
      var n := Common(a[1..], b[1..]);
      assert a[..n + 1] == [a[0]] + a[1..][..n] && b[..n + 1] == [b[0]] + b[1..][..n];
      n + 1
  }

  // ----- a total order -----

  lemma {:induction false} LabelOrder(a: Label, b: Label)
    ensures !(LabelLess(a, b) && LabelLess(b, a)) && !LabelLess(a, a)
    ensures LabelLess(a, b) || LabelLess(b, a) || a == b
  {
    if a != [] && b != [] {
      LabelOrder(a[1..], b[1..]);
      LabelOrder(a[1..], a[1..]);
      assert a == [a[0]] + a[1..] && b == [b[0]] + b[1..];
    } else if a != [] {
      LabelOrder(a[1..], a[1..]);
    }
  }

  lemma {:induction false} LabelTransitive(a: Label, b: Label, c: Label)
    requires LabelLess(a, b) && LabelLess(b, c)
    ensures LabelLess(a, c)
  {
    if a != [] && a[0] == b[0] == c[0] {
      LabelTransitive(a[1..], b[1..], c[1..]);
    }
  }

  /** Exactly one of less, equal and greater holds. */
  lemma {:induction false} Trichotomy(a: Name, b: Name)
    ensures !(Less(a, b) && Less(b, a)) && !Less(a, a)
    ensures Less(a, b) || Less(b, a) || a == b
  {
    if a != [] { Trichotomy(a[1..], a[1..]); }
    if a != [] && b != [] {
      Trichotomy(a[1..], b[1..]);
      LabelOrder(a[0], b[0]);
      assert a == [a[0]] + a[1..] && b == [b[0]] + b[1..];
    }
  }

  lemma {:induction false} Transitive(a: Name, b: Name, c: Name)
    requires Less(a, b) && Less(b, c)
    ensures Less(a, c)
  {
    if a == [] {
    } else {
      if a[0] == b[0] == c[0] {
        Transitive(a[1..], b[1..], c[1..]);
      } else if a[0] != b[0] && b[0] != c[0] {
        LabelTransitive(a[0], b[0], c[0]);
        LabelOrder(a[0], c[0]);
      }
    }
  }

  /** canonicalNameCmp, negative, zero or positive. */
  method CanonicalNameCmp(a: Name, b: Name) returns (r: int)
    ensures r < 0 <==> Less(a, b)
    ensures r == 0 <==> a == b
    ensures r > 0 <==> Less(b, a)
  {
    var i := 0;
    while i < |a| && i < |b|
      invariant i <= |a| && i <= |b| && a[..i] == b[..i]
      invariant Less(a, b) == Less(a[i..], b[i..]) && Less(b, a) == Less(b[i..], a[i..])
    {
      assert a[i..][1..] == a[i + 1..] && b[i..][1..] == b[i + 1..];
      if a[i] != b[i] {
        LabelOrder(a[i], b[i]);
        return if LabelLess(a[i], b[i]) then -1 else 1;
      }
      assert a[..i + 1] == a[..i] + [a[i]] && b[..i + 1] == b[..i] + [b[i]];
      i := i + 1;
    }
    Trichotomy(a, b);
    if i == |a| && i == |b| {
      assert a == a[..i] && b == b[..i];
      return 0;
    }
    return if i == |a| then -1 else 1;
  }

  // ----- subtrees are intervals -----

  /** A name sorts before everything below it. */
  lemma {:induction false} AncestorFirst(p: Name, x: Name)
    requires p <= x
    ensures AtMost(p, x)
  {
    if p != [] && p != x {
      AncestorFirst(p[1..], x[1..]);
      assert p == [p[0]] + p[1..] && x == [x[0]] + x[1..];
    }
  }

  /** Whatever lies between two names of a subtree lies in it. */
  lemma {:induction false} SubtreeInterval(p: Name, a: Name, x: Name, b: Name)
    requires p <= a && p <= b && AtMost(a, x) && AtMost(x, b)
    ensures p <= x
  {
    if p == [] {
    } else {
      LabelOrder(a[0], a[0]);
      if x != [] { LabelOrder(a[0], x[0]); }
      assert x != [] && x[0] == p[0];
      Tail(a, x);
      Tail(x, b);
      SubtreeInterval(p[1..], a[1..], x[1..], b[1..]);
      assert p == [p[0]] + p[1..] && x == [x[0]] + x[1..];
    }
  }

  lemma Tail(a: Name, b: Name)
    requires a != [] && b != [] && a[0] == b[0] && AtMost(a, b)
    ensures AtMost(a[1..], b[1..])
  {
  }

  /** So the nearer of two names on the same side shares at least as many labels. */
  lemma CommonBelow(o: Name, a: Name, q: Name)
    requires AtMost(o, a) && AtMost(a, q)
    ensures Common(q, o) <= Common(q, a)
  {
    var p := q[..Common(q, o)];
    SubtreeInterval(p, o, a, q);
    CommonIsLongest(q, a, |p|);
  }

  lemma CommonAbove(o: Name, b: Name, q: Name)
    requires AtMost(q, b) && AtMost(b, o)
    ensures Common(q, o) <= Common(q, b)
  {
    var p := q[..Common(q, o)];
    SubtreeInterval(p, q, b, o);
    CommonIsLongest(q, b, |p|);
  }

  lemma {:induction false} CommonIsLongest(a: Name, b: Name, n: nat)
    requires n <= |a| && n <= |b| && a[..n] == b[..n]
    ensures n <= Common(a, b)
  {
    assert forall i :: 0 <= i < n ==> a[i] == a[..n][i] == b[..n][i] == b[i];
  }
}
