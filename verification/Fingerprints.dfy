/**
 * The compact blocklist's table: 64-bit entries holding a 60-bit fingerprint
 * and four flag bits, sorted, merged, and indexed by their top bits.
 */
module Fingerprints {
  import opened Octets
  import opened DomainRules

  const FLAG_VALUES: nat := 16

  /** The four flag bits as the low bits of an entry, and back. */
  function Bits(f: Flags): (n: nat)
    ensures n < FLAG_VALUES
  {
    (if f.exact then 1 else 0) + (if f.apexSub then 2 else 0) + (if f.subOnly then 4 else 0) + (if f.hasChildren then 8 else 0)
  }

  function FromBits(n: nat): (f: Flags)
    requires n < FLAG_VALUES
    ensures Bits(f) == n
  {
    Flags(n % 2 == 1, n / 2 % 2 == 1, n / 4 % 2 == 1, n / 8 == 1)
  }

  lemma FromBitsOfBits(f: Flags)
    ensures FromBits(Bits(f)) == f
  {
  }

  function Print(e: uint64): nat
  {
    e / FLAG_VALUES
  }

  function FlagsIn(e: uint64): Flags
  {
    FromBits(e % FLAG_VALUES)
  }

  /** merged[n-1] |= e & domainFlagMask */
  function OrInto(x: uint64, e: uint64): (r: uint64)
    ensures Print(r) == Print(x) && FlagsIn(r) == Or(FlagsIn(x), FlagsIn(e))
  {
    var f := Or(FlagsIn(x), FlagsIn(e));
    FromBitsOfBits(f);
    x / FLAG_VALUES * FLAG_VALUES + Bits(f)
  }

  // ----- what a list of entries says about a fingerprint -----

  ghost predicate Has(s: seq<uint64>, fp: nat)
  {
    exists e :: e in s && Print(e) == fp
  }

  /** Every flag some entry records under the fingerprint. */
  ghost function AllFlags(s: seq<uint64>, fp: nat): Flags
  {
    Flags(exists e :: e in s && Print(e) == fp && FlagsIn(e).exact,
          exists e :: e in s && Print(e) == fp && FlagsIn(e).apexSub,
          exists e :: e in s && Print(e) == fp && FlagsIn(e).subOnly,
          exists e :: e in s && Print(e) == fp && FlagsIn(e).hasChildren)
  }

  ghost predicate SameFlags(s: seq<uint64>, t: seq<uint64>)
  {
    forall fp :: Has(s, fp) == Has(t, fp) && AllFlags(s, fp) == AllFlags(t, fp)
  }

  lemma SameEntriesSameFlags(s: seq<uint64>, t: seq<uint64>)
    requires forall e :: e in s <==> e in t
    ensures SameFlags(s, t)
  {
  }

  lemma AppendEntry(s: seq<uint64>, e: uint64, fp: nat)
    ensures Has(s + [e], fp) == (Has(s, fp) || Print(e) == fp)
    ensures AllFlags(s + [e], fp) == if Print(e) == fp then Or(AllFlags(s, fp), FlagsIn(e)) else AllFlags(s, fp)
  {
    assert forall x :: x in s + [e] <==> x in s || x == e;
  }

  /** Merging an entry into the one before it, which has the same fingerprint. */
  lemma MergeEntry(s: seq<uint64>, x: uint64, e: uint64, fp: nat)
    requires Print(x) == Print(e)
    ensures Has(s + [OrInto(x, e)], fp) == Has(s + [x] + [e], fp)
    ensures AllFlags(s + [OrInto(x, e)], fp) == AllFlags(s + [x] + [e], fp)
  {
    hide Has, AllFlags, OrInto;
    AppendEntry(s, x, fp);
    AppendEntry(s + [x], e, fp);
    AppendEntry(s, OrInto(x, e), fp);
  }

  // ----- sorting -----

  ghost predicate Sorted(s: seq<uint64>)
  {
    forall i, j :: 0 <= i < j < |s| ==> s[i] <= s[j]
  }

  /** Strictly ascending by fingerprint. */
  ghost predicate StrictlySorted(s: seq<uint64>)
  {
    forall i, j :: 0 <= i < j < |s| ==> Print(s[i]) < Print(s[j])
  }

  function Insert(e: uint64, s: seq<uint64>): (r: seq<uint64>)
    requires Sorted(s)
    ensures Sorted(r) && multiset(r) == multiset(s) + multiset{e}
  {
    if s == [] then [e]
    else if e <= s[0] then [e] + s
    else
      var r := Insert(e, s[1..]);
      InsertOrder(s, e, r);
      [s[0]] + r
  }

  lemma InsertOrder(s: seq<uint64>, e: uint64, r: seq<uint64>)
    requires s != [] && Sorted(s) && s[0] < e
    requires Sorted(r) && multiset(r) == multiset(s[1..]) + multiset{e}
    ensures Sorted([s[0]] + r) && multiset([s[0]] + r) == multiset(s) + multiset{e}
  {
    assert s == [s[0]] + s[1..];
    forall j | 0 <= j < |r| ensures s[0] <= r[j] {
      assert r[j] in multiset(r);
      assert r[j] == e || r[j] in s[1..];
    }
  }

  /** slices.Sort */
  function Sort(s: seq<uint64>): (r: seq<uint64>)
    ensures Sorted(r) && multiset(r) == multiset(s)
  {
    if s == [] then []
    else
      assert s == [s[0]] + s[1..];
      Insert(s[0], Sort(s[1..]))
  }

  lemma SortSameEntries(s: seq<uint64>)
    ensures forall e :: e in Sort(s) <==> e in s
  {
    assert forall e :: e in Sort(s) <==> e in multiset(Sort(s));
    assert forall e :: e in s <==> e in multiset(s);
  }

  /** The in-place fold of equal fingerprints over a sorted slice. */
  method Merge(a: array<uint64>) returns (n: nat)
    requires Sorted(a[..])
    modifies a
    ensures n <= a.Length
    ensures StrictlySorted(a[..n]) && SameFlags(a[..n], old(a[..]))
  {
    hide SameFlags, Has, AllFlags, OrInto, Print, FlagsIn;
    ghost var s := a[..];
    n := 0;
    var i := 0;
    SameEntriesSameFlags(a[..n], s[..i]);
    while i < a.Length
      invariant 0 <= n <= i <= a.Length
      invariant forall j :: i <= j < a.Length ==> a[j] == s[j]
      invariant StrictlySorted(a[..n])
      invariant n > 0 ==> i > 0 && Print(a[n - 1]) == Print(s[i - 1])
      invariant SameFlags(a[..n], s[..i])
    {
      var e := a[i];
      ghost var before := a[..n];
      assert s[..i + 1] == s[..i] + [e];
      if n > 0 && Print(a[n - 1]) == Print(e) {
        var x := a[n - 1];
        a[n - 1] := OrInto(x, e);
        assert before == before[..n - 1] + [x];
        assert a[..n] == before[..n - 1] + [OrInto(x, e)];
        MergeStep(before[..n - 1], x, e, s[..i]);
      } else {
        if n > 0 { PrintMonotone(s[i - 1], e); }
        a[n] := e;
        n := n + 1;
        assert a[..n] == before + [e];
        AppendStep(before, e, s[..i]);
      }
      i := i + 1;
    }
    assert s[..i] == s;
  }

  lemma PrintMonotone(x: uint64, e: uint64)
    requires x <= e
    ensures Print(x) <= Print(e)
  {
  }

  lemma AppendStep(m: seq<uint64>, e: uint64, s: seq<uint64>)
    requires SameFlags(m, s)
    ensures SameFlags(m + [e], s + [e])
  {
    hide Has, AllFlags;
    forall fp ensures Has(m + [e], fp) == Has(s + [e], fp) && AllFlags(m + [e], fp) == AllFlags(s + [e], fp) {
      AppendEntry(m, e, fp);
      AppendEntry(s, e, fp);
    }
  }

  lemma MergeStep(m: seq<uint64>, x: uint64, e: uint64, s: seq<uint64>)
    requires SameFlags(m + [x], s) && Print(x) == Print(e)
    ensures SameFlags(m + [OrInto(x, e)], s + [e])
  {
    hide Has, AllFlags, OrInto;
    forall fp
      ensures Has(m + [OrInto(x, e)], fp) == Has(s + [e], fp)
      ensures AllFlags(m + [OrInto(x, e)], fp) == AllFlags(s + [e], fp)
    {
      MergeEntry(m, x, e, fp);
      AppendEntry(m + [x], e, fp);
      AppendEntry(s, e, fp);
    }
  }

  // ----- the bucket index -----

  function Pow2(n: nat): (p: nat)
    ensures p > 0
  {
    if n == 0 then 1 else 2 * Pow2(n - 1)
  }

  lemma {:induction false} Pow2Add(m: nat, n: nat)
    ensures Pow2(m + n) == Pow2(m) * Pow2(n)
  {
    if n == 0 {
    } else {
      Pow2Add(m, n - 1);
      assert Pow2(m + n) == 2 * (Pow2(m) * Pow2(n - 1)) == Pow2(m) * (2 * Pow2(n - 1));
    }
  }

  lemma Pow2Of64()
    ensures Pow2(64) == TWO_64
  {
    hide Pow2;
    Pow2Of16();
    Pow2Add(16, 16);
    Pow2Add(32, 32);
  }

  lemma Pow2Of16()
    ensures Pow2(16) == 0x1_0000
  {
    assert Pow2(4) == 16 && Pow2(8) == 16 * Pow2(4);
    assert Pow2(12) == 16 * Pow2(8) && Pow2(16) == 16 * Pow2(12);
  }

  function Div(x: nat, d: nat): (q: nat)
    requires d > 0
    ensures d * q <= x < d * q + d
  {
    x / d
  }

  lemma DivMonotone(x: nat, y: nat, d: nat)
    requires x <= y && d > 0
    ensures Div(x, d) <= Div(y, d)
  {
    hide Div;
    var p, q := Div(x, d), Div(y, d);
    if p > q { MulMonotone(d, q + 1, p); }
  }

  lemma DivBelow(x: nat, d: nat, n: nat)
    requires d > 0 && x < d * n
    ensures Div(x, d) < n
  {
    hide Div;
    if Div(x, d) >= n { MulMonotone(d, n, Div(x, d)); }
  }

  lemma MulMonotone(d: nat, x: nat, y: nat)
    requires x <= y
    ensures d * x <= d * y
  {
  }

  function Bucket(e: uint64, shift: nat): nat
  {
    Div(e, Pow2(shift))
  }

  lemma BucketInRange(e: uint64, bits: nat)
    requires bits <= 64
    ensures Bucket(e, 64 - bits) < Pow2(bits)
  {
    hide Pow2, Div;
    Pow2Add(64 - bits, bits);
    Pow2Of64();
    DivBelow(e, Pow2(64 - bits), Pow2(bits));
  }

  lemma {:induction false} Pow2Strict(m: nat, n: nat)
    requires m < n
    ensures Pow2(m) < Pow2(n)
  {
    if m + 1 < n { Pow2Strict(m, n - 1); }
  }

  /** domainBucketBits, for a power of two. */
  method BucketBits(buckets: nat, ghost b: nat) returns (bits: nat)
    requires buckets == Pow2(b)
    ensures bits == b
  {
    bits := 0;
    while Pow2(bits) < buckets
      invariant bits <= b
    {
      bits := bits + 1;
    }
    if bits < b { Pow2Strict(bits, b); }
  }

  lemma DivUnique(x: nat, d: nat, q: nat)
    requires d > 0 && d * q <= x < d * q + d
    ensures Div(x, d) == q
  {
    hide Div;
    var p := Div(x, d);
    if p < q { MulMonotone(d, p + 1, q); }
    if q < p { MulMonotone(d, q + 1, p); }
  }

  /** The bucket is taken from the fingerprint alone: the flag bits lie below the shift. */
  lemma BucketOfPrint(e: uint64, shift: nat)
    requires 4 <= shift
    ensures Bucket(e, shift) == Div(Print(e), Pow2(shift - 4))
  {
    hide Pow2, Div;
    var d := Pow2(shift - 4);
    Pow2Add(shift - 4, 4);
    Pow2Of4();
    var q := Div(Print(e), d);
    assert 16 * d * q == 16 * (d * q);
    DivUnique(e, Pow2(shift), q);
  }

  lemma Pow2Of4()
    ensures Pow2(3) == 8 && Pow2(4) == 16
  {
  }

  /** index[b] is the first entry of bucket b: everything before it is in a lower bucket, the rest is not. */
  ghost predicate StartsBucket(entries: seq<uint64>, shift: nat, b: nat, start: nat)
  {
    && start <= |entries|
    && forall i :: 0 <= i < |entries| ==> (Bucket(entries[i], shift) < b <==> i < start)
  }

  lemma BucketMonotone(entries: seq<uint64>, shift: nat, i: nat, j: nat)
    requires StrictlySorted(entries) && i <= j < |entries|
    ensures Bucket(entries[i], shift) <= Bucket(entries[j], shift)
  {
    hide Div, Pow2;
    if i < j { assert entries[i] <= entries[j]; }
    DivMonotone(entries[i], entries[j], Pow2(shift));
  }

  /** build's last loop: where each bucket starts. */
  method BucketStarts(entries: seq<uint64>, shift: nat, buckets: nat) returns (index: array<uint32>)
    requires StrictlySorted(entries) && |entries| < TWO_32
    requires forall i :: 0 <= i < |entries| ==> Bucket(entries[i], shift) < buckets
    ensures fresh(index) && index.Length == buckets + 1
    ensures forall b :: 0 <= b <= buckets ==> StartsBucket(entries, shift, b, index[b])
  {
    hide Bucket, Print;
    index := new uint32[buckets + 1](_ => 0);
    var e := 0;
    for b := 0 to buckets
      invariant StartsBucket(entries, shift, b, e)
      invariant forall c :: 0 <= c < b ==> StartsBucket(entries, shift, c, index[c])
    {
      index[b] := e;
      while e < |entries| && Bucket(entries[e], shift) == b
        invariant 0 <= e <= |entries|
        invariant forall i :: 0 <= i < e ==> Bucket(entries[i], shift) <= b
        invariant forall i :: e <= i < |entries| ==> Bucket(entries[i], shift) >= b
      {
        e := e + 1;
      }
      forall i | e <= i < |entries| ensures Bucket(entries[i], shift) > b {
        BucketMonotone(entries, shift, e, i);
      }
    }
    index[buckets] := |entries|;
  }

  lemma SameFlagsTrans(r: seq<uint64>, s: seq<uint64>, t: seq<uint64>)
    requires SameFlags(r, s) && SameFlags(s, t)
    ensures SameFlags(r, t)
  {
    forall fp ensures Has(r, fp) == Has(t, fp) && AllFlags(r, fp) == AllFlags(t, fp) {
      assert Has(r, fp) == Has(s, fp);
    }
  }

  /** In a merged table the entry with a fingerprint carries every flag recorded under it. */
  lemma UniqueFlags(entries: seq<uint64>, i: nat)
    requires StrictlySorted(entries) && i < |entries|
    ensures Has(entries, Print(entries[i])) && AllFlags(entries, Print(entries[i])) == FlagsIn(entries[i])
  {
    assert forall e :: e in entries && Print(e) == Print(entries[i]) ==> e == entries[i];
  }

  /** How many buckets a table gets: a power of two, eight entries to a bucket. */
  method BucketCount(n: nat) returns (buckets: nat, ghost b: nat)
    requires n < TWO_32
    ensures buckets == Pow2(b) && b <= 60
    ensures n <= 8 * buckets && (buckets == 8 || 4 * buckets < n)
  {
    Pow2Of4();
    buckets, b := 8, 3;
    while buckets * 8 < n
      invariant 8 <= buckets == Pow2(b) && buckets < TWO_32 && (buckets == 8 || 4 * buckets < n)
      decreases n - buckets
    {
      buckets, b := buckets * 2, b + 1;
    }
    if b > 60 {
      Pow2Of64();
      Pow2Add(60, 4);
      Pow2Strict(60, b);
    }
  }

  /** The fingerprints a list of entries mentions. */
  ghost function Prints(s: seq<uint64>): set<nat>
  {
    set e | e in s :: Print(e)
  }

  /** A merged table has one entry per fingerprint. */
  lemma MergedSize(m: seq<uint64>, s: seq<uint64>)
    requires StrictlySorted(m) && SameFlags(m, s)
    ensures |m| == |Prints(s)|
  {
    assert Prints(m) == Prints(s) by {
      forall fp ensures fp in Prints(m) <==> fp in Prints(s) { assert Has(m, fp) == Has(s, fp); }
    }
    DistinctPrints(m);
  }

  lemma {:induction false} DistinctPrints(m: seq<uint64>)
    requires StrictlySorted(m)
    ensures |Prints(m)| == |m|
  {
    if m == [] {
    } else {
      var front, last := m[..|m| - 1], m[|m| - 1];
      DistinctPrints(front);
      assert Print(last) !in Prints(front);
      assert forall e :: e in m <==> e in front || e == last;
      assert Prints(m) == Prints(front) + {Print(last)};
    }
  }

  /** The first half of build: what was recorded, each fingerprint once, in order. */
  method SortAndMerge(recorded: seq<uint64>) returns (merged: seq<uint64>)
    ensures StrictlySorted(merged) && SameFlags(merged, recorded)
  {
    hide SameFlags, StrictlySorted;
    var sorted := Sort(recorded);
    SortSameEntries(recorded);
    SameEntriesSameFlags(sorted, recorded);
    var a := new uint64[|sorted|](i requires 0 <= i < |sorted| => sorted[i]);
    assert a[..] == sorted;
    var n := Merge(a);
    merged := a[..n];
    SameFlagsTrans(merged, sorted, recorded);
  }

  /** domainFingerprints, as build leaves it. */
  class Table {
    const entries: seq<uint64>
    const index: array<uint32>
    const shift: nat

    ghost predicate Valid()
      reads index
    {
      && StrictlySorted(entries)
      && 4 <= shift <= 64
      && index.Length == Pow2(64 - shift) + 1
      && forall b :: 0 <= b < index.Length ==> StartsBucket(entries, shift, b, index[b])
    }

    /** build: sorts, merges and indexes what was recorded. */
    constructor (recorded: seq<uint64>)
      requires |Prints(recorded)| < TWO_32
      ensures Valid() && fresh(index) && SameFlags(entries, recorded)
    {
      hide SameFlags, StrictlySorted, StartsBucket, Pow2, Div, Bucket;
      var merged := SortAndMerge(recorded);
      MergedSize(merged, recorded);
      var buckets, b := BucketCount(|merged|);
      var bits := BucketBits(buckets, b);
      forall i | 0 <= i < |merged| ensures Bucket(merged[i], 64 - bits) < buckets {
        BucketInRange(merged[i], bits);
      }
      entries := merged;
      shift := 64 - bits;
      var starts := BucketStarts(merged, 64 - bits, buckets);
      index := starts;
    }

    /** find: the flags recorded for a fingerprint, if any; `want` is an entry without flags. */
    method Find(want: uint64) returns (r: Option<Flags>)
      requires Valid() && want % FLAG_VALUES == 0
      ensures r == if Has(entries, Print(want)) then Some(AllFlags(entries, Print(want))) else None
    {
      hide Has, AllFlags, Pow2, Div, Bucket;
      ghost var fp := Print(want);
      var bucket := Bucket(want, shift);
      BucketInRange(want, 64 - shift);
      assert StartsBucket(entries, shift, bucket, index[bucket]);
      assert StartsBucket(entries, shift, bucket + 1, index[bucket + 1]);
      forall j | 0 <= j < |entries| && Bucket(entries[j], shift) != bucket ensures Print(entries[j]) != fp {
        BucketOfPrint(entries[j], shift);
        BucketOfPrint(want, shift);
      }
      var i := index[bucket];
      while i < index[bucket + 1]
        invariant i <= |entries|
        invariant forall j :: 0 <= j < i ==> Print(entries[j]) != fp
      {
        var e := entries[i];
        if e - e % FLAG_VALUES == want {
          UniqueFlags(entries, i);
          return Some(FlagsIn(e));
        }
        if e > want {
          NotHere(entries, fp, i);
          return None;
        }
        i := i + 1;
      }
      NotHere(entries, fp, i);
      r := None;
    }
  }

  lemma NotHere(entries: seq<uint64>, fp: nat, i: nat)
    requires i <= |entries|
    requires forall j :: 0 <= j < i ==> Print(entries[j]) != fp
    requires forall j :: i <= j < |entries| ==> Print(entries[j]) != fp
    ensures !Has(entries, fp)
  {
  }
}
