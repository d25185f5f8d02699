/**
 * Denial of existence by NSEC records (section 5.4 of RFC 4035), stated
 * against the zone the records come from.
 */
module Nsec {
  import opened Octets
  import opened CanonicalOrder
  import opened RecordTypes

  datatype NSEC = NSEC(owner: Name, next: Name, types: seq<uint16>)

  // ----- the code -----

  /** nsecCovers */
  function Covers(n: NSEC, q: Name): bool
  {
    if q == n.owner then false
    else if Less(n.owner, n.next) then Less(n.owner, q) && Less(q, n.next)
    else Less(n.owner, q) || Less(q, n.next)
  }

  /** nsecClosestEncloser, as the number of labels of the query name it keeps. */
  function EncloserDepth(q: Name, n: NSEC): (d: nat)
    ensures d <= |q|
  {
    var a, b := Common(q, n.owner), Common(q, n.next);
    if a < b then b else a
  }

  function ClosestEncloser(q: Name, n: NSEC): Name
  {
    q[..EncloserDepth(q, n)]
  }

  /** nsecProvesNXDOMAIN */
  method ProvesNXDOMAIN(nsecs: seq<NSEC>, q: Name) returns (proved: bool)
    ensures proved <==> NxProof(nsecs, q)
  {
    hide Covers, ClosestEncloser, Wildcard;
    var ce: Name, covered := [], false;
    var i := 0;
    while i < |nsecs| && !covered
      invariant 0 <= i <= |nsecs|
      invariant covered ==> FirstCover(nsecs, q).Some? && ce == ClosestEncloser(q, FirstCover(nsecs, q).value)
      invariant !covered ==> FirstCover(nsecs, q) == FirstCover(nsecs[i..], q)
    {
      if Covers(nsecs[i], q) {
        ce := ClosestEncloser(q, nsecs[i]);
        covered := true;
      } else {
        assert nsecs[i..][1..] == nsecs[i + 1..];
      }
      i := i + 1;
    }
    if !covered {
      return false;
    }
    var wildcard := Wildcard(ce);
    i := 0;
    while i < |nsecs|
      invariant 0 <= i <= |nsecs|
      invariant WildcardDenied(nsecs, wildcard) == WildcardDenied(nsecs[i..], wildcard)
    {
      if nsecs[i].owner == wildcard {
        return false;
      }
      if Covers(nsecs[i], wildcard) {
        return true;
      }
      assert nsecs[i..][1..] == nsecs[i + 1..];
      i := i + 1;
    }
    return false;
  }

  /** The scan for a record by owner name that nsecProvesNODATA makes, for the query name and for a wildcard. */
  method FindOwned(nsecs: seq<NSEC>, name: Name) returns (r: Option<NSEC>)
    ensures r == OwnedBy(nsecs, name)
  {
    var i := 0;
    while i < |nsecs|
      invariant 0 <= i <= |nsecs|
      invariant OwnedBy(nsecs, name) == OwnedBy(nsecs[i..], name)
    {
      if nsecs[i].owner == name {
        return Some(nsecs[i]);
      }
      assert nsecs[i..][1..] == nsecs[i + 1..];
      i := i + 1;
    }
    return None;
  }

  /** nsecProvesNODATA */
  method ProvesNODATA(nsecs: seq<NSEC>, q: Name, qtype: uint16) returns (proved: bool)
    ensures proved <==> NoDataProof(nsecs, q, qtype)
  {
    hide Covers, ClosestEncloser, Wildcard, OwnedBy, Lacks;
    var own := FindOwned(nsecs, q);
    if own.Some? {
      return Lacks(own.value.types, qtype);
    }
    var i := 0;
    while i < |nsecs|
      invariant 0 <= i <= |nsecs|
      invariant WildcardNoData(nsecs, nsecs, q, qtype) == WildcardNoData(nsecs[i..], nsecs, q, qtype)
    {
      assert nsecs[i..][1..] == nsecs[i + 1..];
      if Covers(nsecs[i], q) {
        var w := FindOwned(nsecs, Wildcard(ClosestEncloser(q, nsecs[i])));
        if w.Some? {
          return Lacks(w.value.types, qtype);
        }
      }
      i := i + 1;
    }
    return false;
  }

  // ----- the scans, as functions -----

  function FirstCover(nsecs: seq<NSEC>, q: Name): (r: Option<NSEC>)
    ensures r.Some? ==> r.value in nsecs && Covers(r.value, q)
    ensures r.None? ==> forall n :: n in nsecs ==> !Covers(n, q)
  {
    if nsecs == [] then None
    else if Covers(nsecs[0], q) then Some(nsecs[0])
    else FirstCover(nsecs[1..], q)
  }

  /** The first record owned by a name. */
  function OwnedBy(nsecs: seq<NSEC>, name: Name): (r: Option<NSEC>)
    ensures r.Some? ==> r.value in nsecs && r.value.owner == name
    ensures r.None? ==> forall n :: n in nsecs ==> n.owner != name
  {
    if nsecs == [] then None
    else if nsecs[0].owner == name then Some(nsecs[0])
    else OwnedBy(nsecs[1..], name)
  }

  /** Whether a record covering the wildcard comes before one owned by it. */
  predicate WildcardDenied(nsecs: seq<NSEC>, wildcard: Name)
  {
    nsecs != [] && nsecs[0].owner != wildcard
    && (Covers(nsecs[0], wildcard) || WildcardDenied(nsecs[1..], wildcard))
  }

  predicate NxProof(nsecs: seq<NSEC>, q: Name)
  {
    FirstCover(nsecs, q).Some?
    && WildcardDenied(nsecs, Wildcard(ClosestEncloser(q, FirstCover(nsecs, q).value)))
  }

  predicate WildcardNoData(rest: seq<NSEC>, nsecs: seq<NSEC>, q: Name, qtype: uint16)
  {
    if rest == [] then false
    else
      var w := OwnedBy(nsecs, Wildcard(ClosestEncloser(q, rest[0])));
      if Covers(rest[0], q) && w.Some? then Lacks(w.value.types, qtype)
      else WildcardNoData(rest[1..], nsecs, q, qtype)
  }

  predicate NoDataProof(nsecs: seq<NSEC>, q: Name, qtype: uint16)
  {
    if OwnedBy(nsecs, q).Some? then Lacks(OwnedBy(nsecs, q).value.types, qtype)
    else WildcardNoData(nsecs, nsecs, q, qtype)
  }

  // ----- a zone and its chain -----

  /** A zone below the root: its owner names in canonical order, the apex first, and the types at each. */
  datatype Zone = Zone(owners: seq<Name>, types: seq<seq<uint16>>)

  ghost predicate ValidZone(z: Zone)
  {
    && 1 <= |z.owners| == |z.types|
    && z.owners[0] != []
    && (forall i, j :: 0 <= i < j < |z.owners| ==> Less(z.owners[i], z.owners[j]))
    && (forall i :: 0 <= i < |z.owners| ==> AtOrUnder(z.owners[i], z.owners[0]))
  }

  /** The i-th record of the zone's circular chain. */
  function ChainRecord(z: Zone, i: nat): NSEC
    requires i < |z.owners| == |z.types|
  {
    NSEC(z.owners[i], if i + 1 < |z.owners| then z.owners[i + 1] else z.owners[0], z.types[i])
  }

  ghost predicate FromChain(z: Zone, n: NSEC)
    requires ValidZone(z)
  {
    exists i :: 0 <= i < |z.owners| && n == ChainRecord(z, i)
  }

  ghost predicate AllFromChain(z: Zone, nsecs: seq<NSEC>)
    requires ValidZone(z)
  {
    forall n :: n in nsecs ==> FromChain(z, n)
  }

  ghost predicate WholeChain(z: Zone, nsecs: seq<NSEC>)
    requires ValidZone(z)
  {
    AllFromChain(z, nsecs) && forall i :: 0 <= i < |z.owners| ==> ChainRecord(z, i) in nsecs
  }

  /** The first d labels of q are its longest ancestor-or-self with an owner at or below it. */
  ghost predicate IsEncloserDepth(z: Zone, q: Name, d: nat)
  {
    && d <= |q|
    && (exists o :: o in z.owners && q[..d] <= o)
    && (forall o, k :: o in z.owners && d < k <= |q| ==> !(q[..k] <= o))
  }

  /** Whether a name of the zone has the type, or an alias. */
  ghost predicate AnswersAt(z: Zone, name: Name, qtype: uint16)
    requires ValidZone(z)
  {
    exists i :: 0 <= i < |z.owners| && z.owners[i] == name && (qtype in z.types[i] || TYPE_CNAME in z.types[i])
  }

  /** Whether the zone has an answer for the query: at the name itself, or else by the wildcard at depth d. */
  ghost predicate Answers(z: Zone, q: Name, d: nat, qtype: uint16)
    requires ValidZone(z) && d <= |q|
  {
    AnswersAt(z, if q in z.owners then q else Wildcard(q[..d]), qtype)
  }

  // ----- what a covering record shows -----

  /** A record of the chain covers a name of the zone exactly when it is the gap the name falls in. */
  lemma CoverMeansGap(z: Zone, i: nat, q: Name)
    requires ValidZone(z) && i < |z.owners| && AtOrUnder(q, z.owners[0])
    ensures Covers(ChainRecord(z, i), q) <==>
            Less(z.owners[i], q) && (i + 1 < |z.owners| ==> Less(q, z.owners[i + 1]))
  {
    var apex := z.owners[0];
    AncestorFirst(apex, q);
    AncestorFirst(apex, z.owners[i]);
    Trichotomy(apex, q);
    Trichotomy(apex, z.owners[i]);
    Trichotomy(z.owners[i], q);
  }

  /** In the gap there is no owner, and every owner shares at most the encloser's labels with the name. */
  lemma GapShows(z: Zone, i: nat, q: Name)
    requires ValidZone(z) && i < |z.owners|
    requires Less(z.owners[i], q) && (i + 1 < |z.owners| ==> Less(q, z.owners[i + 1]))
    ensures q !in z.owners
    ensures IsEncloserDepth(z, q, EncloserDepth(q, ChainRecord(z, i)))
  {
    var n, d := ChainRecord(z, i), EncloserDepth(q, ChainRecord(z, i));
    forall o | o in z.owners ensures o != q && Common(q, o) <= d {
      var j :| 0 <= j < |z.owners| && z.owners[j] == o;
      Trichotomy(z.owners[i], q);
      Trichotomy(q, q);
      if j <= i {
        if j < i { Transitive(o, z.owners[i], q); }
        CommonBelow(o, z.owners[i], q);
      } else {
        if j > i + 1 { Transitive(q, z.owners[i + 1], o); }
        CommonAbove(o, z.owners[i + 1], q);
      }
    }
    var w := if Common(q, n.owner) < Common(q, n.next) then n.next else n.owner;
    assert w in z.owners && q[..d] == w[..d] <= w;
    forall o, k | o in z.owners && d < k <= |q| ensures !(q[..k] <= o) {
      PrefixCommon(q, o, k);
    }
  }

  lemma PrefixCommon(q: Name, o: Name, k: nat)
    requires k <= |q|
    ensures q[..k] <= o ==> k <= Common(q, o)
  {
    if q[..k] <= o {
      assert o[..k] == q[..k];
      CommonIsLongest(q, o, k);
    }
  }

  lemma DepthInRange(z: Zone, q: Name, d: nat)
    requires IsEncloserDepth(z, q, d)
    ensures d <= |q|
  {
  }

  lemma DepthUnique(z: Zone, q: Name, d: nat, e: nat)
    requires IsEncloserDepth(z, q, d) && IsEncloserDepth(z, q, e)
    ensures d == e
  {
  }

  /** Every covering record of the chain shows that the name is no owner, and the same, true closest encloser. */
  lemma CoverShows(z: Zone, n: NSEC, q: Name)
    requires ValidZone(z) && FromChain(z, n) && AtOrUnder(q, z.owners[0]) && Covers(n, q)
    ensures q !in z.owners && IsEncloserDepth(z, q, EncloserDepth(q, n))
  {
    var i :| 0 <= i < |z.owners| && n == ChainRecord(z, i);
    CoverMeansGap(z, i, q);
    GapShows(z, i, q);
  }

  /** A name that is no owner falls in some gap. */
  lemma {:induction false} FindGap(z: Zone, q: Name, n: nat) returns (i: nat)
    requires ValidZone(z) && AtOrUnder(q, z.owners[0]) && q !in z.owners
    requires 1 <= n <= |z.owners| && (n < |z.owners| ==> Less(q, z.owners[n]))
    ensures i < n && Covers(ChainRecord(z, i), q)
  {
    Trichotomy(z.owners[n - 1], q);
    AncestorFirst(z.owners[0], q);
    if Less(z.owners[n - 1], q) {
      i := n - 1;
      CoverMeansGap(z, i, q);
    } else {
      Trichotomy(z.owners[0], q);
      i := FindGap(z, q, n - 1);
    }
  }

  lemma EncloserIsUnderApex(z: Zone, q: Name, d: nat)
    requires ValidZone(z) && AtOrUnder(q, z.owners[0]) && IsEncloserDepth(z, q, d)
    ensures AtOrUnder(q[..d], z.owners[0]) && AtOrUnder(Wildcard(q[..d]), z.owners[0])
  {
    var k := |z.owners[0]|;
    assert q[..k] == z.owners[0] && z.owners[0] in z.owners;
    assert k <= d;
  }

  // ----- NXDOMAIN -----

  /** Some record covers a name. */
  ghost predicate CoverAny(nsecs: seq<NSEC>, q: Name)
  {
    exists n :: n in nsecs && Covers(n, q)
  }

  /** In any part of the chain, a wildcard under the apex is denied exactly if a record covers it. */
  lemma {:induction false} DeniedIffCovered(z: Zone, nsecs: seq<NSEC>, w: Name)
    requires ValidZone(z) && AllFromChain(z, nsecs) && AtOrUnder(w, z.owners[0])
    ensures WildcardDenied(nsecs, w) <==> CoverAny(nsecs, w)
  {
    hide Covers;
    if c :| c in nsecs && Covers(c, w) {
      CoverShows(z, c, w);
      NotOwned(z, nsecs, w);
      UnownedWildcardDenied(nsecs, w, c);
    } else {
      DeniedIsCovered(nsecs, w);
    }
  }

  lemma {:induction false} DeniedIsCovered(nsecs: seq<NSEC>, w: Name)
    ensures WildcardDenied(nsecs, w) ==> CoverAny(nsecs, w)
  {
    hide Covers;
    if nsecs == [] {
    } else {
      DeniedIsCovered(nsecs[1..], w);
    }
  }

  /** With a record covering it and none owned by it, a wildcard is denied. */
  lemma {:induction false} UnownedWildcardDenied(nsecs: seq<NSEC>, w: Name, c: NSEC)
    requires forall n :: n in nsecs ==> n.owner != w
    requires c in nsecs && Covers(c, w)
    ensures WildcardDenied(nsecs, w)
  {
    if !Covers(nsecs[0], w) {
      UnownedWildcardDenied(nsecs[1..], w, c);
    }
  }

  /** Whatever part of the chain a response carries, the proof succeeds exactly if it covers the name and its wildcard. */
  lemma NxIff(z: Zone, nsecs: seq<NSEC>, q: Name, d: nat)
    requires ValidZone(z) && AllFromChain(z, nsecs) && AtOrUnder(q, z.owners[0]) && IsEncloserDepth(z, q, d)
    ensures NxProof(nsecs, q) <==> CoverAny(nsecs, q) && CoverAny(nsecs, Wildcard(q[..d]))
  {
    hide Covers, IsEncloserDepth, EncloserDepth, WildcardDenied;
    DepthInRange(z, q, d);
    EncloserIsUnderApex(z, q, d);
    DeniedIffCovered(z, nsecs, Wildcard(q[..d]));
    if FirstCover(nsecs, q).Some? {
      var n := FirstCover(nsecs, q).value;
      CoverShows(z, n, q);
      DepthUnique(z, q, d, EncloserDepth(q, n));
    }
  }

  /** What is covered is no owner, and the whole chain covers all the rest. */
  lemma CoveredIff(z: Zone, nsecs: seq<NSEC>, q: Name)
    requires ValidZone(z) && AllFromChain(z, nsecs) && AtOrUnder(q, z.owners[0])
    ensures CoverAny(nsecs, q) ==> q !in z.owners
    ensures WholeChain(z, nsecs) && q !in z.owners ==> CoverAny(nsecs, q)
  {
    if n :| n in nsecs && Covers(n, q) {
      CoverShows(z, n, q);
    } else if q !in z.owners {
      var i := FindGap(z, q, |z.owners|);
    }
  }

  /** Soundness: an accepted NXDOMAIN proof from one zone's chain means no owner and no wildcard answers. */
  lemma NxSound(z: Zone, nsecs: seq<NSEC>, q: Name, d: nat)
    requires ValidZone(z) && AllFromChain(z, nsecs) && AtOrUnder(q, z.owners[0])
    requires NxProof(nsecs, q) && IsEncloserDepth(z, q, d)
    ensures q !in z.owners && Wildcard(q[..d]) !in z.owners
  {
    hide NxProof, CoverAny, IsEncloserDepth;
    DepthInRange(z, q, d);
    NxIff(z, nsecs, q, d);
    EncloserIsUnderApex(z, q, d);
    CoveredIff(z, nsecs, q);
    CoveredIff(z, nsecs, Wildcard(q[..d]));
  }

  /** Exactness: with the whole chain at hand, the proof succeeds exactly when that is so. */
  lemma NxExact(z: Zone, nsecs: seq<NSEC>, q: Name, d: nat)
    requires ValidZone(z) && WholeChain(z, nsecs) && AtOrUnder(q, z.owners[0])
    requires IsEncloserDepth(z, q, d)
    ensures NxProof(nsecs, q) <==> q !in z.owners && Wildcard(q[..d]) !in z.owners
  {
    hide NxProof, CoverAny, IsEncloserDepth;
    DepthInRange(z, q, d);
    NxIff(z, nsecs, q, d);
    EncloserIsUnderApex(z, q, d);
    CoveredIff(z, nsecs, q);
    CoveredIff(z, nsecs, Wildcard(q[..d]));
  }

  /**
   * The name denied may still be an empty non-terminal: one with owners below it
   * and none at it passes the NXDOMAIN proof unless a wildcard hangs under it.
   */
  lemma EmptyNonTerminalPasses(z: Zone, nsecs: seq<NSEC>, q: Name, below: Name)
    requires ValidZone(z) && WholeChain(z, nsecs) && AtOrUnder(q, z.owners[0])
    requires q !in z.owners && below in z.owners && q <= below
    ensures NxProof(nsecs, q) <==> Wildcard(q) !in z.owners
  {
    assert q[..|q|] == q;
    assert IsEncloserDepth(z, q, |q|);
    NxExact(z, nsecs, q, |q|);
  }

  /** Such a name: a.c. in a zone with the owners c. and b.a.c. */
  lemma EmptyNonTerminalExample()
    ensures
      var z := Zone([[[99]], [[99], [97], [98]]], [[], []]);
      var nsecs := [ChainRecord(z, 0), ChainRecord(z, 1)];
      ValidZone(z) && WholeChain(z, nsecs) && NxProof(nsecs, [[99], [97]])
  {
    var z := Zone([[[99]], [[99], [97], [98]]], [[], []]);
    var nsecs := [ChainRecord(z, 0), ChainRecord(z, 1)];
    var q := [[99], [97]];
    assert z.owners[1][1..] == [[97], [98]] && z.owners[0][1..] == [];
    assert Less(z.owners[0], z.owners[1]);
    assert ValidZone(z);
    assert nsecs[0] == ChainRecord(z, 0) && nsecs[1] == ChainRecord(z, 1);
    assert WholeChain(z, nsecs);
    assert q <= z.owners[1] && z.owners[1] in z.owners;
    assert Wildcard(q)[2] == STAR != z.owners[1][2];
    EmptyNonTerminalPasses(z, nsecs, q, z.owners[1]);
  }

  /** Every name of a zone has a closest encloser depth, so the theorems above always apply. */
  lemma EncloserExists(z: Zone, q: Name) returns (d: nat)
    requires ValidZone(z) && AtOrUnder(q, z.owners[0])
    ensures IsEncloserDepth(z, q, d)
  {
    if q in z.owners {
      d := |q|;
      assert q[..d] == q;
    } else {
      var i := FindGap(z, q, |z.owners|);
      CoverShows(z, ChainRecord(z, i), q);
      d := EncloserDepth(q, ChainRecord(z, i));
    }
  }

  // ----- NODATA -----

  lemma OwnerIndexUnique(z: Zone, i: nat, j: nat)
    requires ValidZone(z) && i < |z.owners| && j < |z.owners| && z.owners[i] == z.owners[j]
    ensures i == j
  {
    Trichotomy(z.owners[i], z.owners[i]);
  }

  /** A record of the chain owned by a name tells the name's types. */
  lemma OwnRecordTells(z: Zone, n: NSEC, name: Name, qtype: uint16)
    requires ValidZone(z) && FromChain(z, n) && n.owner == name
    ensures name in z.owners
    ensures Lacks(n.types, qtype) <==> !AnswersAt(z, name, qtype)
  {
    var k :| 0 <= k < |z.owners| && n == ChainRecord(z, k);
    forall i | 0 <= i < |z.owners| && z.owners[i] == name ensures i == k {
      OwnerIndexUnique(z, i, k);
    }
  }

  /** The wildcard scan settles on the wildcard at the true closest encloser. */
  lemma {:induction false} WildcardScan(z: Zone, rest: seq<NSEC>, nsecs: seq<NSEC>, q: Name, qtype: uint16, d: nat)
    requires ValidZone(z) && AllFromChain(z, nsecs) && AtOrUnder(q, z.owners[0])
    requires d <= |q| && IsEncloserDepth(z, q, d)
    requires forall n :: n in rest ==> n in nsecs
    ensures
      var w := OwnedBy(nsecs, Wildcard(q[..d]));
      WildcardNoData(rest, nsecs, q, qtype) <==> CoverAny(rest, q) && w.Some? && Lacks(w.value.types, qtype)
  {
    hide Covers, IsEncloserDepth, Wildcard, Lacks, OwnedBy, EncloserDepth;
    DepthInRange(z, q, d);
    if rest == [] {
    } else {
      WildcardScan(z, rest[1..], nsecs, q, qtype, d);
      assert rest == [rest[0]] + rest[1..];
      if Covers(rest[0], q) {
        CoverShows(z, rest[0], q);
        DepthUnique(z, q, d, EncloserDepth(q, rest[0]));
      }
    }
  }

  /** Some record owned by a name lacks the type asked for. */
  ghost predicate Shows(nsecs: seq<NSEC>, name: Name, qtype: uint16)
  {
    exists n :: n in nsecs && n.owner == name && Lacks(n.types, qtype)
  }

  /** Records of the chain with the same owner are the same record, so the first one decides. */
  lemma ShownByFirst(z: Zone, nsecs: seq<NSEC>, name: Name, qtype: uint16)
    requires ValidZone(z) && AllFromChain(z, nsecs)
    ensures var own := OwnedBy(nsecs, name); Shows(nsecs, name, qtype) <==> own.Some? && Lacks(own.value.types, qtype)
  {
    hide OwnedBy;
    if n :| n in nsecs && n.owner == name && Lacks(n.types, qtype) {
      OwnRecordTells(z, n, name, qtype);
      OwnRecordTells(z, OwnedBy(nsecs, name).value, name, qtype);
    }
  }

  /**
   * Whatever part of the chain a response carries, the proof succeeds exactly if
   * it shows the type missing at the name, or covers the name and shows the type
   * missing at its wildcard.
   */
  lemma NoDataIff(z: Zone, nsecs: seq<NSEC>, q: Name, qtype: uint16, d: nat)
    requires ValidZone(z) && AllFromChain(z, nsecs) && AtOrUnder(q, z.owners[0]) && IsEncloserDepth(z, q, d)
    ensures NoDataProof(nsecs, q, qtype) <==>
            Shows(nsecs, q, qtype) || (CoverAny(nsecs, q) && Shows(nsecs, Wildcard(q[..d]), qtype))
  {
    hide WildcardNoData, Covers, IsEncloserDepth, Wildcard, Lacks, OwnedBy;
    DepthInRange(z, q, d);
    ShownByFirst(z, nsecs, q, qtype);
    ShownByFirst(z, nsecs, Wildcard(q[..d]), qtype);
    WildcardScan(z, nsecs, nsecs, q, qtype, d);
    CoveredIff(z, nsecs, q);
    if q !in z.owners {
      NotOwned(z, nsecs, q);
    }
  }

  /** What shows the type missing is an owner without an answer, and the whole chain shows all of those. */
  lemma ShowsIff(z: Zone, nsecs: seq<NSEC>, name: Name, qtype: uint16)
    requires ValidZone(z) && AllFromChain(z, nsecs)
    ensures Shows(nsecs, name, qtype) ==> name in z.owners && !AnswersAt(z, name, qtype)
    ensures WholeChain(z, nsecs) && name in z.owners && !AnswersAt(z, name, qtype) ==> Shows(nsecs, name, qtype)
  {
    if n :| n in nsecs && n.owner == name && Lacks(n.types, qtype) {
      OwnRecordTells(z, n, name, qtype);
    } else if name in z.owners {
      var i :| 0 <= i < |z.owners| && z.owners[i] == name;
      OwnRecordTells(z, ChainRecord(z, i), name, qtype);
    }
  }

  /** Soundness: an accepted NODATA proof means the zone has no answer at the name, nor by its wildcard. */
  lemma NoDataSound(z: Zone, nsecs: seq<NSEC>, q: Name, qtype: uint16, d: nat)
    requires ValidZone(z) && AllFromChain(z, nsecs) && AtOrUnder(q, z.owners[0])
    requires NoDataProof(nsecs, q, qtype) && IsEncloserDepth(z, q, d)
    ensures !Answers(z, q, d, qtype)
    ensures q in z.owners || Wildcard(q[..d]) in z.owners
  {
    hide NoDataProof, CoverAny, Shows, IsEncloserDepth, AnswersAt;
    DepthInRange(z, q, d);
    NoDataIff(z, nsecs, q, qtype, d);
    CoveredIff(z, nsecs, q);
    ShowsIff(z, nsecs, q, qtype);
    ShowsIff(z, nsecs, Wildcard(q[..d]), qtype);
  }

  /** Exactness: with the whole chain, the proof succeeds exactly when there is a name to speak of and no answer at it. */
  lemma NoDataExact(z: Zone, nsecs: seq<NSEC>, q: Name, qtype: uint16, d: nat)
    requires ValidZone(z) && WholeChain(z, nsecs) && AtOrUnder(q, z.owners[0])
    requires IsEncloserDepth(z, q, d)
    ensures NoDataProof(nsecs, q, qtype) <==>
            (q in z.owners || Wildcard(q[..d]) in z.owners) && !Answers(z, q, d, qtype)
  {
    hide NoDataProof, CoverAny, Shows, IsEncloserDepth, AnswersAt;
    DepthInRange(z, q, d);
    NoDataIff(z, nsecs, q, qtype, d);
    CoveredIff(z, nsecs, q);
    ShowsIff(z, nsecs, q, qtype);
    ShowsIff(z, nsecs, Wildcard(q[..d]), qtype);
  }

  /** Among records of one chain, further ones take no proof away. */
  lemma MoreRecords(z: Zone, nsecs: seq<NSEC>, all: seq<NSEC>, q: Name, qtype: uint16)
    requires ValidZone(z) && AllFromChain(z, all) && AtOrUnder(q, z.owners[0]) && forall n :: n in nsecs ==> n in all
    ensures NxProof(nsecs, q) ==> NxProof(all, q)
    ensures NoDataProof(nsecs, q, qtype) ==> NoDataProof(all, q, qtype)
  {
    hide NxProof, NoDataProof, IsEncloserDepth, FromChain;
    var d := EncloserExists(z, q);
    DepthInRange(z, q, d);
    NxIff(z, nsecs, q, d);
    NxIff(z, all, q, d);
    NoDataIff(z, nsecs, q, qtype, d);
    NoDataIff(z, all, q, qtype, d);
  }

  /** And a name without an owner or a wildcard has two records that prove it, alone or with others of the chain. */
  lemma TwoRecordsSuffice(z: Zone, q: Name, d: nat) returns (n: NSEC, w: NSEC)
    requires ValidZone(z) && AtOrUnder(q, z.owners[0]) && IsEncloserDepth(z, q, d)
    requires q !in z.owners && Wildcard(q[..d]) !in z.owners
    ensures FromChain(z, n) && FromChain(z, w)
    ensures forall nsecs :: AllFromChain(z, nsecs) && n in nsecs && w in nsecs ==> NxProof(nsecs, q)
  {
    hide NxProof;
    EncloserIsUnderApex(z, q, d);
    var i := FindGap(z, q, |z.owners|);
    var j := FindGap(z, Wildcard(q[..d]), |z.owners|);
    n, w := ChainRecord(z, i), ChainRecord(z, j);
    forall nsecs | AllFromChain(z, nsecs) && n in nsecs && w in nsecs ensures NxProof(nsecs, q) {
      NxIff(z, nsecs, q, d);
    }
  }

  lemma NotOwned(z: Zone, nsecs: seq<NSEC>, name: Name)
    requires ValidZone(z) && AllFromChain(z, nsecs) && name !in z.owners
    ensures OwnedBy(nsecs, name).None?
  {
    forall n | n in nsecs ensures n.owner != name {
      var i :| 0 <= i < |z.owners| && n == ChainRecord(z, i);
    }
  }

  // ----- delegations -----

  /** A delegation: the owner is the apex of another zone, to which all names at and below it belong. */
  predicate Cut(z: Zone, i: nat)
    requires i < |z.owners| == |z.types|
  {
    TYPE_NS in z.types[i] && TYPE_SOA !in z.types[i]
  }

  /** The query is for another zone to answer: a delegation is above the name, or at it for any type but DS. */
  ghost predicate Elsewhere(z: Zone, q: Name, qtype: uint16)
    requires ValidZone(z)
  {
    exists i :: DelegatedAt(z, i, q, qtype)
  }

  ghost predicate DelegatedAt(z: Zone, i: int, q: Name, qtype: uint16)
    requires ValidZone(z)
  {
    0 <= i < |z.owners| && Cut(z, i) && z.owners[i] <= q && !(z.owners[i] == q && qtype == TYPE_DS)
  }

  /** Whether the query has an answer, given what the delegated zones, by apex, have at which names. */
  ghost predicate AnswersAnywhere(z: Zone, below: (Name, Name, uint16) -> bool, q: Name, d: nat, qtype: uint16)
    requires ValidZone(z) && d <= |q|
  {
    if Elsewhere(z, q, qtype) then exists i :: DelegatedAt(z, i, q, qtype) && below(z.owners[i], q, qtype)
    else Answers(z, q, d, qtype)
  }

  /**
   * The proofs never look for a delegation (section 4.1 of RFC 6840): what they
   * accept rules out an answer, whatever the delegated zones hold, exactly if the
   * query is not for one of them.
   */
  lemma ConclusiveIff(z: Zone, nsecs: seq<NSEC>, q: Name, qtype: uint16, d: nat)
    requires ValidZone(z) && AllFromChain(z, nsecs) && AtOrUnder(q, z.owners[0]) && IsEncloserDepth(z, q, d)
    requires NxProof(nsecs, q) || NoDataProof(nsecs, q, qtype)
    ensures (forall below :: !AnswersAnywhere(z, below, q, d, qtype)) <==> !Elsewhere(z, q, qtype)
  {
    hide NxProof, NoDataProof, IsEncloserDepth, Cut;
    DepthInRange(z, q, d);
    if NxProof(nsecs, q) {
      NxSound(z, nsecs, q, d);
    } else {
      NoDataSound(z, nsecs, q, qtype, d);
    }
    if i :| DelegatedAt(z, i, q, qtype) {
      assert AnswersAnywhere(z, (_, _, _) => true, q, d, qtype);
    }
  }

  /** With the whole chain every name below a delegation passes the NXDOMAIN proof, and at it every type its record lacks the NODATA one. */
  lemma DelegationPasses(z: Zone, nsecs: seq<NSEC>, i: nat, q: Name, qtype: uint16)
    requires ValidZone(z) && WholeChain(z, nsecs) && i < |z.owners| && z.owners[i] <= q
    requires forall o :: o in z.owners && z.owners[i] <= o ==> o == z.owners[i]
    ensures q != z.owners[i] ==> NxProof(nsecs, q)
    ensures q == z.owners[i] && Lacks(z.types[i], qtype) ==> NoDataProof(nsecs, q, qtype)
  {
    var c := z.owners[i];
    assert q[..|c|] == c && c in z.owners && z.owners[0] <= c;
    if q != c {
      forall o, k | o in z.owners && |c| < k <= |q| ensures !(q[..k] <= o) {
        assert q[..k][..|c|] == c;
      }
      assert IsEncloserDepth(z, q, |c|);
      assert c <= Wildcard(c);
      NxExact(z, nsecs, q, |c|);
    } else {
      assert IsEncloserDepth(z, q, |q|);
      OwnRecordTells(z, ChainRecord(z, i), c, qtype);
      NoDataExact(z, nsecs, q, qtype, |q|);
    }
  }

  /** Such a name and such a type: x.a.c. and the SOA of a.c., both of the zone delegated at a.c. by c. */
  lemma DelegationExample()
    ensures
      var z := Zone([[[99]], [[99], [97]]], [[TYPE_NS, TYPE_SOA], [TYPE_NS]]);
      var nsecs := [ChainRecord(z, 0), ChainRecord(z, 1)];
      && ValidZone(z) && WholeChain(z, nsecs)
      && NxProof(nsecs, [[99], [97], [120]]) && Elsewhere(z, [[99], [97], [120]], TYPE_NS)
      && NoDataProof(nsecs, [[99], [97]], TYPE_SOA) && Elsewhere(z, [[99], [97]], TYPE_SOA)
  {
    var z := Zone([[[99]], [[99], [97]]], [[TYPE_NS, TYPE_SOA], [TYPE_NS]]);
    var nsecs := [ChainRecord(z, 0), ChainRecord(z, 1)];
    var c, q := [[99], [97]], [[99], [97], [120]];
    assert z.owners[1][1..] == [[97]] && z.owners[0][1..] == [];
    assert Less(z.owners[0], z.owners[1]);
    assert ValidZone(z);
    assert nsecs[0] == ChainRecord(z, 0) && nsecs[1] == ChainRecord(z, 1);
    assert WholeChain(z, nsecs);
    assert c <= q && z.owners[1] == c && !(c <= z.owners[0]);
    DelegationPasses(z, nsecs, 1, q, TYPE_NS);
    DelegationPasses(z, nsecs, 1, c, TYPE_SOA);
    assert Cut(z, 1);
    assert DelegatedAt(z, 1, q, TYPE_NS) && DelegatedAt(z, 1, c, TYPE_SOA);
  }
}
