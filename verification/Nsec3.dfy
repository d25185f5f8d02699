/**
 * Denial of existence by NSEC3 records: the closest encloser proof (sections
 * 8.3 to 8.7 of RFC 5155), stated against the zone the records come from.
 */
module Nsec3 {
  import opened Octets
  import opened CanonicalOrder
  import opened RecordTypes

  /** A record, reduced to what the proofs read: the hashed span, the opt-out flag and the types. */
  datatype NSEC3 = NSEC3(owner: nat, next: nat, optOut: bool, types: seq<uint16>)

  /** The Match and Cover tests of a record against a name, left uninterpreted. */
  datatype Tests = Tests(matches: (NSEC3, Name) -> bool, covers: (NSEC3, Name) -> bool)

  // ----- the code -----

  predicate MatchAny(t: Tests, rs: seq<NSEC3>, name: Name)
  {
    exists r :: r in rs && t.matches(r, name)
  }

  predicate CoverAny(t: Tests, rs: seq<NSEC3>, name: Name)
  {
    exists r :: r in rs && t.covers(r, name)
  }

  predicate OptOutCovers(t: Tests, rs: seq<NSEC3>, name: Name)
  {
    exists r :: r in rs && r.optOut && t.covers(r, name)
  }

  /** nsec3ClosestEncloser: how many labels the longest proper ancestor with a matching record has. */
  method ClosestEncloser(t: Tests, rs: seq<NSEC3>, q: Name) returns (depth: Option<nat>)
    ensures depth.Some? ==> depth.value < |q| && MatchAny(t, rs, q[..depth.value])
    ensures depth.Some? ==> forall k :: depth.value < k < |q| ==> !MatchAny(t, rs, q[..k])
    ensures depth.None? ==> forall k :: 0 <= k < |q| ==> !MatchAny(t, rs, q[..k])
  {
    var k := |q| - 1;
    while k >= 0
      invariant -1 <= k < |q|
      invariant forall j :: k < j < |q| ==> !MatchAny(t, rs, q[..j])
    {
      if MatchAny(t, rs, q[..k]) {
        return Some(k);
      }
      k := k - 1;
    }
    return None;
  }

  /** The depth the scan stops at. */
  ghost predicate StopsAt(t: Tests, rs: seq<NSEC3>, q: Name, d: nat)
  {
    && d < |q| && MatchAny(t, rs, q[..d])
    && forall k :: d < k < |q| ==> !MatchAny(t, rs, q[..k])
  }

  lemma StopsOnce(t: Tests, rs: seq<NSEC3>, q: Name, d: nat, e: nat)
    requires StopsAt(t, rs, q, d) && StopsAt(t, rs, q, e)
    ensures d == e
  {
  }

  /** nsec3ProvesNXDOMAIN; optOut tells that only the opt-out branch accepted. */
  method ProvesNXDOMAIN(t: Tests, rs: seq<NSEC3>, q: Name) returns (proved: bool, optOut: bool)
    ensures proved <==> NxProved(t, rs, q) || NxOptedOut(t, rs, q)
    ensures proved ==> (optOut <==> !NxProved(t, rs, q))
  {
    hide MatchAny, CoverAny;
    var d := ClosestEncloser(t, rs, q);
    if d.None? {
      return false, false;
    }
    assert StopsAt(t, rs, q, d.value);
    forall e: nat | StopsAt(t, rs, q, e) ensures e == d.value {
      StopsOnce(t, rs, q, d.value, e);
    }
    if !CoverAny(t, rs, q[..d.value + 1]) {
      OptOutIsCover(t, rs, q[..d.value + 1]);
      return false, false;
    }
    if CoverAny(t, rs, Wildcard(q[..d.value])) {
      assert NxProof(t, rs, q, d.value);
      return true, false;
    }
    proved := OptOutCovers(t, rs, q[..d.value + 1]);
    optOut := true;
    assert NxOptOut(t, rs, q, d.value) == proved;
  }

  lemma OptOutIsCover(t: Tests, rs: seq<NSEC3>, name: Name)
    ensures OptOutCovers(t, rs, name) ==> CoverAny(t, rs, name)
  {
  }

  predicate NxProof(t: Tests, rs: seq<NSEC3>, q: Name, d: nat)
    requires d < |q|
  {
    CoverAny(t, rs, q[..d + 1]) && CoverAny(t, rs, Wildcard(q[..d]))
  }

  predicate NxOptOut(t: Tests, rs: seq<NSEC3>, q: Name, d: nat)
    requires d < |q|
  {
    OptOutCovers(t, rs, q[..d + 1])
  }

  /** The proof at the depth the scan stops at, without and with the opt-out branch. */
  ghost predicate NxProved(t: Tests, rs: seq<NSEC3>, q: Name)
  {
    exists d :: StopsAt(t, rs, q, d) && NxProof(t, rs, q, d)
  }

  ghost predicate NxOptedOut(t: Tests, rs: seq<NSEC3>, q: Name)
  {
    exists d :: StopsAt(t, rs, q, d) && NxOptOut(t, rs, q, d)
  }

  /** The first record matching a name. */
  function FirstMatch(t: Tests, rs: seq<NSEC3>, name: Name): (r: Option<NSEC3>)
    ensures r.Some? ==> r.value in rs && t.matches(r.value, name)
    ensures r.None? <==> !MatchAny(t, rs, name)
  {
    if rs == [] then None
    else if t.matches(rs[0], name) then Some(rs[0])
    else FirstMatch(t, rs[1..], name)
  }

  method FindMatch(t: Tests, rs: seq<NSEC3>, name: Name) returns (r: Option<NSEC3>)
    ensures r == FirstMatch(t, rs, name)
  {
    var i := 0;
    while i < |rs|
      invariant 0 <= i <= |rs| && FirstMatch(t, rs, name) == FirstMatch(t, rs[i..], name)
    {
      if t.matches(rs[i], name) {
        return Some(rs[i]);
      }
      assert rs[i..][1..] == rs[i + 1..];
      i := i + 1;
    }
    return None;
  }

  /** nsec3ProvesNODATA */
  method ProvesNODATA(t: Tests, rs: seq<NSEC3>, q: Name, qtype: uint16) returns (proved: bool)
    ensures proved <==> NoDataProved(t, rs, q, qtype)
  {
    hide MatchAny, CoverAny, OptOutCovers, FirstMatch, Lacks;
    var own := FindMatch(t, rs, q);
    if own.Some? {
      proved := Lacks(own.value.types, qtype);
      assert NoDataProof(t, rs, q, qtype, None) == proved;
      return;
    }
    if qtype == TYPE_DS && OptOutCovers(t, rs, q) {
      assert NoDataProof(t, rs, q, qtype, None);
      return true;
    }
    var d := ClosestEncloser(t, rs, q);
    forall e: nat | StopsAt(t, rs, q, e) ensures d == Some(e) {
      if d.Some? { StopsOnce(t, rs, q, d.value, e); }
    }
    if d.Some? && CoverAny(t, rs, q[..d.value + 1]) {
      var w := FindMatch(t, rs, Wildcard(q[..d.value]));
      if w.Some? {
        proved := Lacks(w.value.types, qtype);
        assert NoDataProof(t, rs, q, qtype, d) == proved;
        return;
      }
    }
    return false;
  }

  ghost predicate NoDataProved(t: Tests, rs: seq<NSEC3>, q: Name, qtype: uint16)
  {
    exists d: Option<nat> :: (d.Some? ==> StopsAt(t, rs, q, d.value)) && NoDataProof(t, rs, q, qtype, d)
  }

  predicate NoDataProof(t: Tests, rs: seq<NSEC3>, q: Name, qtype: uint16, d: Option<nat>)
    requires d.Some? ==> d.value < |q|
  {
    var own := FirstMatch(t, rs, q);
    if own.Some? then Lacks(own.value.types, qtype)
    else if qtype == TYPE_DS && OptOutCovers(t, rs, q) then true
    else
      d.Some? && CoverAny(t, rs, q[..d.value + 1])
      && FirstMatch(t, rs, Wildcard(q[..d.value])).Some?
      && Lacks(FirstMatch(t, rs, Wildcard(q[..d.value])).value.types, qtype)
  }

  // ----- a zone and its hashed chain -----

  /**
   * A zone: its apex, the names that exist in it (owners and empty
   * non-terminals, so every ancestor down from the apex exists too) and the
   * types at each.
   */
  datatype Zone = Zone(apex: Name, names: set<Name>, types: map<Name, seq<uint16>>)

  ghost predicate ValidZone(z: Zone)
  {
    && z.apex != [] && z.apex in z.names
    && z.types.Keys == z.names
    && (forall x :: x in z.names ==> z.apex <= x)
    && (forall x, k :: x in z.names && |z.apex| <= k <= |x| ==> x[..k] in z.names)
  }

  /** The names a proof about q may ask for: its ancestors, itself, and the wildcards below them. */
  ghost predicate Asked(q: Name, x: Name)
  {
    exists k :: 0 <= k <= |q| && (x == q[..k] || x == Wildcard(q[..k]))
  }

  lemma AskedAt(q: Name, k: nat)
    requires k <= |q|
    ensures Asked(q, q[..k]) && Asked(q, Wildcard(q[..k])) && Asked(q, q)
  {
    assert q[..|q|] == q;
  }

  /** Records that tell the truth: of those names they match only ones that exist, with their types, and cover none that do. */
  ghost predicate Genuine(t: Tests, z: Zone, rs: seq<NSEC3>, q: Name)
    requires ValidZone(z)
  {
    && (forall r, x :: r in rs && Asked(q, x) && t.matches(r, x) ==> x in z.names && r.types == z.types[x])
    && (forall r, x :: r in rs && Asked(q, x) && t.covers(r, x) ==> x !in z.names)
  }

  /** All of the truth: each of them that exists is matched, and every other one under the apex covered. */
  ghost predicate Complete(t: Tests, z: Zone, rs: seq<NSEC3>, q: Name)
    requires ValidZone(z)
  {
    && Genuine(t, z, rs, q)
    && (forall x :: Asked(q, x) && x in z.names ==> MatchAny(t, rs, x))
    && (forall x :: Asked(q, x) && z.apex <= x && x !in z.names ==> CoverAny(t, rs, x))
  }

  /** The longest proper ancestor of q that exists. */
  ghost predicate IsEncloser(z: Zone, q: Name, d: nat)
  {
    && d < |q| && q[..d] in z.names
    && forall k :: d < k < |q| ==> q[..k] !in z.names
  }

  /** The name whose records stand for q: q itself, or else the wildcard at its closest encloser. */
  ghost predicate Source(z: Zone, q: Name, x: Name)
  {
    x in z.names && (x == q || (q !in z.names && exists d: nat :: IsEncloser(z, q, d) && x == Wildcard(q[..d])))
  }

  /** Below a name that does not exist nothing does. */
  lemma NothingBelow(z: Zone, q: Name, k: nat, j: nat)
    requires ValidZone(z) && |z.apex| <= k <= j <= |q| && q[..k] !in z.names
    ensures q[..j] !in z.names
  {
    assert q[..j][..k] == q[..k];
  }

  /** A matched ancestor whose next closer name is covered is the true closest encloser, and the name does not exist. */
  lemma EncloserProof(t: Tests, z: Zone, rs: seq<NSEC3>, q: Name, d: nat)
    requires ValidZone(z) && Genuine(t, z, rs, q) && d < |q|
    requires MatchAny(t, rs, q[..d]) && CoverAny(t, rs, q[..d + 1])
    ensures IsEncloser(z, q, d) && q !in z.names
  {
    AskedAt(q, d);
    AskedAt(q, d + 1);
    assert q[..d] in z.names && q[..d + 1] !in z.names;
    forall k | d < k <= |q| ensures q[..k] !in z.names {
      NothingBelow(z, q, d + 1, k);
    }
    assert q[..|q|] == q;
  }

  /** A matched ancestor and a cover of the next closer name. */
  ghost predicate EncloserShown(t: Tests, rs: seq<NSEC3>, q: Name, d: nat)
  {
    d < |q| && MatchAny(t, rs, q[..d]) && CoverAny(t, rs, q[..d + 1])
  }

  /** Genuine records show only the true closest encloser, and the scan stops there. */
  lemma ShownIsTrue(t: Tests, z: Zone, rs: seq<NSEC3>, q: Name, d: nat)
    requires ValidZone(z) && Genuine(t, z, rs, q) && EncloserShown(t, rs, q, d)
    ensures IsEncloser(z, q, d) && q !in z.names && StopsAt(t, rs, q, d)
  {
    hide Asked;
    EncloserProof(t, z, rs, q, d);
    forall k | d < k < |q| ensures !MatchAny(t, rs, q[..k]) {
      AskedAt(q, k);
    }
  }

  lemma EncloserUnique(z: Zone, q: Name, d: nat)
    requires IsEncloser(z, q, d)
    ensures d < |q| && forall e: nat :: IsEncloser(z, q, e) ==> e == d
    ensures forall x :: Source(z, q, x) ==> x == q || x == Wildcard(q[..d])
  {
  }

  /** An encloser and a cover of the wildcard at it, or an opt-out cover of the next closer name. */
  ghost predicate NxShown(t: Tests, rs: seq<NSEC3>, q: Name, d: nat)
  {
    EncloserShown(t, rs, q, d) && CoverAny(t, rs, Wildcard(q[..d]))
  }

  ghost predicate OptOutShown(t: Tests, rs: seq<NSEC3>, q: Name, d: nat)
  {
    EncloserShown(t, rs, q, d) && OptOutCovers(t, rs, q[..d + 1])
  }

  lemma NxAtDepth(t: Tests, z: Zone, rs: seq<NSEC3>, q: Name, d: nat)
    requires ValidZone(z) && Genuine(t, z, rs, q)
    ensures StopsAt(t, rs, q, d) && NxProof(t, rs, q, d) <==> NxShown(t, rs, q, d)
    ensures StopsAt(t, rs, q, d) && NxOptOut(t, rs, q, d) <==> OptOutShown(t, rs, q, d)
  {
    hide Genuine, MatchAny, CoverAny, OptOutCovers;
    if d < |q| {
      OptOutIsCover(t, rs, q[..d + 1]);
    }
    if EncloserShown(t, rs, q, d) {
      ShownIsTrue(t, z, rs, q, d);
    }
  }

  /** Whatever genuine records a response carries, the two proofs succeed exactly if these are among what they show. */
  lemma NxIff(t: Tests, z: Zone, rs: seq<NSEC3>, q: Name)
    requires ValidZone(z) && Genuine(t, z, rs, q)
    ensures NxProved(t, rs, q) <==> exists d: nat :: NxShown(t, rs, q, d)
    ensures NxOptedOut(t, rs, q) <==> exists d: nat :: OptOutShown(t, rs, q, d)
  {
    hide Genuine, NxShown, OptOutShown, MatchAny, NxProof, NxOptOut;
    forall d: nat
      ensures StopsAt(t, rs, q, d) && NxProof(t, rs, q, d) <==> NxShown(t, rs, q, d)
      ensures StopsAt(t, rs, q, d) && NxOptOut(t, rs, q, d) <==> OptOutShown(t, rs, q, d)
    {
      NxAtDepth(t, z, rs, q, d);
    }
  }

  /** Soundness of NXDOMAIN without opt-out: no name stands for the one asked for. */
  lemma NxSound(t: Tests, z: Zone, rs: seq<NSEC3>, q: Name, x: Name)
    requires ValidZone(z) && Genuine(t, z, rs, q) && NxProved(t, rs, q)
    ensures !Source(z, q, x)
  {
    hide Genuine, MatchAny, CoverAny, IsEncloser;
    NxIff(t, z, rs, q);
    var d: nat :| NxShown(t, rs, q, d);
    ShownIsTrue(t, z, rs, q, d);
    CoveredOut(t, z, rs, q, Wildcard(q[..d]), d);
    EncloserUnique(z, q, d);
  }

  lemma CoveredOut(t: Tests, z: Zone, rs: seq<NSEC3>, q: Name, x: Name, k: nat)
    requires ValidZone(z) && Genuine(t, z, rs, q) && k <= |q| && (x == q[..k] || x == Wildcard(q[..k]))
    ensures CoverAny(t, rs, x) ==> x !in z.names
  {
    AskedAt(q, k);
  }

  /** With opt-out the name does not exist among the hashed names, but nothing is said about the wildcard. */
  lemma NxOptOutSound(t: Tests, z: Zone, rs: seq<NSEC3>, q: Name)
    requires ValidZone(z) && Genuine(t, z, rs, q) && NxOptedOut(t, rs, q)
    ensures q !in z.names
  {
    hide Genuine, MatchAny, CoverAny, OptOutCovers;
    NxIff(t, z, rs, q);
    var d: nat :| OptOutShown(t, rs, q, d);
    ShownIsTrue(t, z, rs, q, d);
  }

  /** Every name below the apex has a closest encloser, which complete records show if the name does not exist. */
  lemma EncloserFound(t: Tests, z: Zone, rs: seq<NSEC3>, q: Name) returns (d: nat)
    requires ValidZone(z) && Complete(t, z, rs, q) && z.apex <= q && q !in z.names
    ensures IsEncloser(z, q, d) && |z.apex| <= d && EncloserShown(t, rs, q, d)
  {
    hide Asked;
    assert forall k :: |q| <= k <= |q| ==> q[..k] == q;
    d := DeepestName(z, q, |q|);
    AskedAt(q, d);
    AskedAt(q, d + 1);
    assert q[..|q|] == q;
  }

  lemma {:induction false} DeepestName(z: Zone, q: Name, n: nat) returns (d: nat)
    requires ValidZone(z) && z.apex <= q && |z.apex| <= n <= |q|
    requires forall k :: n <= k <= |q| ==> q[..k] !in z.names
    ensures |z.apex| <= d < n && q[..d] in z.names && forall k :: d < k <= |q| ==> q[..k] !in z.names
  {
    assert q[..|z.apex|] == z.apex;
    d := n - 1;
    if q[..d] !in z.names {
      d := DeepestName(z, q, d);
    }
  }

  /** Exactness: with all records at hand the proof succeeds exactly when no name stands for the one asked for. */
  lemma NxExact(t: Tests, z: Zone, rs: seq<NSEC3>, q: Name)
    requires ValidZone(z) && Complete(t, z, rs, q) && z.apex <= q
    ensures NxProved(t, rs, q) <==> forall x :: !Source(z, q, x)
  {
    hide Asked, Genuine, MatchAny, CoverAny, NxProved;
    if NxProved(t, rs, q) {
      forall x ensures !Source(z, q, x) {
        NxSound(t, z, rs, q, x);
      }
    }
    if forall x :: !Source(z, q, x) {
      assert !Source(z, q, q);
      var d := EncloserFound(t, z, rs, q);
      assert !Source(z, q, Wildcard(q[..d]));
      AskedAt(q, d);
      assert z.apex <= Wildcard(q[..d]);
      NxIff(t, z, rs, q);
      assert NxShown(t, rs, q, d);
    }
  }

  /** Some record matching a name lacks the type asked for. */
  ghost predicate Shows(t: Tests, rs: seq<NSEC3>, name: Name, qtype: uint16)
  {
    exists r :: r in rs && t.matches(r, name) && Lacks(r.types, qtype)
  }

  /** Genuine records matching the same name tell the same types, so the first one decides. */
  lemma ShownByFirst(t: Tests, z: Zone, rs: seq<NSEC3>, q: Name, k: nat, x: Name, qtype: uint16)
    requires ValidZone(z) && Genuine(t, z, rs, q) && k <= |q| && (x == q[..k] || x == Wildcard(q[..k]))
    ensures var own := FirstMatch(t, rs, x); Shows(t, rs, x, qtype) <==> own.Some? && Lacks(own.value.types, qtype)
    ensures Shows(t, rs, x, qtype) ==> x in z.names && Lacks(z.types[x], qtype)
    ensures MatchAny(t, rs, x) ==> x in z.names && !CoverAny(t, rs, x)
  {
    hide Asked, Lacks;
    AskedAt(q, k);
  }

  lemma CompleteShows(t: Tests, z: Zone, rs: seq<NSEC3>, q: Name, k: nat, x: Name, qtype: uint16)
    requires ValidZone(z) && Complete(t, z, rs, q) && k <= |q| && (x == q[..k] || x == Wildcard(q[..k]))
    requires x in z.names && Lacks(z.types[x], qtype)
    ensures Shows(t, rs, x, qtype)
  {
    hide Asked, Lacks;
    AskedAt(q, k);
    assert MatchAny(t, rs, x);
  }

  /** An encloser and, at the wildcard there, the type missing. */
  ghost predicate WildcardShown(t: Tests, rs: seq<NSEC3>, q: Name, qtype: uint16, d: nat)
  {
    EncloserShown(t, rs, q, d) && Shows(t, rs, Wildcard(q[..d]), qtype)
  }

  /** The type missing at the name itself, or a DS left to opt-out. */
  ghost predicate NameShown(t: Tests, rs: seq<NSEC3>, q: Name, qtype: uint16)
  {
    Shows(t, rs, q, qtype) || (qtype == TYPE_DS && OptOutCovers(t, rs, q))
  }

  lemma NoDataAtName(t: Tests, z: Zone, rs: seq<NSEC3>, q: Name, qtype: uint16)
    requires ValidZone(z) && Genuine(t, z, rs, q)
    ensures NoDataProof(t, rs, q, qtype, None) <==> NameShown(t, rs, q, qtype)
  {
    hide Genuine, MatchAny, CoverAny, OptOutCovers, FirstMatch, Shows, Lacks;
    assert q[..|q|] == q;
    ShownByFirst(t, z, rs, q, |q|, q, qtype);
    OptOutIsCover(t, rs, q);
  }

  lemma NoDataAtDepth(t: Tests, z: Zone, rs: seq<NSEC3>, q: Name, qtype: uint16, d: nat)
    requires ValidZone(z) && Genuine(t, z, rs, q)
    ensures StopsAt(t, rs, q, d) && NoDataProof(t, rs, q, qtype, Some(d)) ==>
              NameShown(t, rs, q, qtype) || WildcardShown(t, rs, q, qtype, d)
    ensures WildcardShown(t, rs, q, qtype, d) ==> StopsAt(t, rs, q, d) && NoDataProof(t, rs, q, qtype, Some(d))
  {
    hide Genuine, MatchAny, CoverAny, OptOutCovers, FirstMatch, Shows, Lacks;
    assert q[..|q|] == q;
    ShownByFirst(t, z, rs, q, |q|, q, qtype);
    if d < |q| {
      ShownByFirst(t, z, rs, q, d, Wildcard(q[..d]), qtype);
    }
    if EncloserShown(t, rs, q, d) {
      ShownIsTrue(t, z, rs, q, d);
    }
  }

  /** Whatever genuine records a response carries, the proof succeeds exactly if one of these is among what they show. */
  lemma NoDataIff(t: Tests, z: Zone, rs: seq<NSEC3>, q: Name, qtype: uint16)
    requires ValidZone(z) && Genuine(t, z, rs, q)
    ensures NoDataProved(t, rs, q, qtype) <==>
            NameShown(t, rs, q, qtype) || exists d: nat :: WildcardShown(t, rs, q, qtype, d)
  {
    hide Genuine, WildcardShown, NameShown, MatchAny, NoDataProof;
    NoDataAtName(t, z, rs, q, qtype);
    if d: nat :| WildcardShown(t, rs, q, qtype, d) {
      NoDataAtDepth(t, z, rs, q, qtype, d);
    }
    if d: Option<nat> :| (d.Some? ==> StopsAt(t, rs, q, d.value)) && NoDataProof(t, rs, q, qtype, d) {
      if d.Some? {
        NoDataAtDepth(t, z, rs, q, qtype, d.value);
      }
    }
  }

  /** Soundness of NODATA, the opt-out answer to a DS query aside: a name stands for the one asked for, without an answer. */
  lemma NoDataSound(t: Tests, z: Zone, rs: seq<NSEC3>, q: Name, qtype: uint16) returns (x: Name)
    requires ValidZone(z) && Genuine(t, z, rs, q)
    requires NoDataProved(t, rs, q, qtype) && !(qtype == TYPE_DS && OptOutCovers(t, rs, q))
    ensures Source(z, q, x) && Lacks(z.types[x], qtype)
    ensures q in z.names ==> x == q
  {
    hide Genuine, MatchAny, CoverAny, OptOutCovers, FirstMatch, Shows, Lacks, NoDataProved, IsEncloser;
    NoDataIff(t, z, rs, q, qtype);
    if Shows(t, rs, q, qtype) {
      x := q;
      assert q[..|q|] == q;
      ShownByFirst(t, z, rs, q, |q|, q, qtype);
    } else {
      var d: nat :| WildcardShown(t, rs, q, qtype, d);
      x := Wildcard(q[..d]);
      ShownIsTrue(t, z, rs, q, d);
      ShownByFirst(t, z, rs, q, d, x, qtype);
    }
  }

  /** Exactness: with all records, NODATA is proved exactly if a name stands for the one asked for, without an answer. */
  lemma NoDataExact(t: Tests, z: Zone, rs: seq<NSEC3>, q: Name, qtype: uint16)
    requires ValidZone(z) && Complete(t, z, rs, q) && z.apex <= q
    requires !(qtype == TYPE_DS && OptOutCovers(t, rs, q))
    ensures NoDataProved(t, rs, q, qtype) <==> exists x :: Source(z, q, x) && Lacks(z.types[x], qtype)
  {
    hide Genuine, MatchAny, CoverAny, OptOutCovers, Lacks, Shows, NoDataProved, Complete, IsEncloser, EncloserShown;
    CompleteIsGenuine(t, z, rs, q);
    NoDataIff(t, z, rs, q, qtype);
    if NoDataProved(t, rs, q, qtype) {
      var x := NoDataSound(t, z, rs, q, qtype);
    }
    if x :| Source(z, q, x) && Lacks(z.types[x], qtype) {
      assert q[..|q|] == q;
      if x == q {
        CompleteShows(t, z, rs, q, |q|, q, qtype);
      } else {
        var d := EncloserFound(t, z, rs, q);
        EncloserUnique(z, q, d);
        CompleteShows(t, z, rs, q, d, x, qtype);
        assert WildcardShown(t, rs, q, qtype, d);
      }
    }
  }

  lemma CompleteIsGenuine(t: Tests, z: Zone, rs: seq<NSEC3>, q: Name)
    requires ValidZone(z) && Complete(t, z, rs, q)
    ensures Genuine(t, z, rs, q)
  {
  }

  /** Among genuine records, further ones take no proof away. */
  lemma MoreRecords(t: Tests, z: Zone, rs: seq<NSEC3>, all: seq<NSEC3>, q: Name, qtype: uint16)
    requires ValidZone(z) && Genuine(t, z, all, q) && forall r :: r in rs ==> r in all
    ensures NxProved(t, rs, q) ==> NxProved(t, all, q)
    ensures NxOptedOut(t, rs, q) ==> NxOptedOut(t, all, q)
    ensures NoDataProved(t, rs, q, qtype) ==> NoDataProved(t, all, q, qtype)
  {
    hide NxProved, NxOptedOut, NoDataProved, Asked;
    NxIff(t, z, rs, q);
    NxIff(t, z, all, q);
    NoDataIff(t, z, rs, q, qtype);
    NoDataIff(t, z, all, q, qtype);
    forall d: nat
      ensures NxShown(t, rs, q, d) ==> NxShown(t, all, q, d)
      ensures OptOutShown(t, rs, q, d) ==> OptOutShown(t, all, q, d)
      ensures WildcardShown(t, rs, q, qtype, d) ==> WildcardShown(t, all, q, qtype, d)
    {
    }
  }

  /** A DS query answered by opt-out: the name is not among the hashed names, so no signed DS exists. */
  lemma NoDataOptOut(t: Tests, z: Zone, rs: seq<NSEC3>, q: Name)
    requires ValidZone(z) && Genuine(t, z, rs, q) && OptOutCovers(t, rs, q)
    ensures q !in z.names
  {
    AskedAt(q, |q|);
  }

  /** A name nothing stands for has three records that prove it, alone or with other genuine ones. */
  lemma ThreeRecordsSuffice(t: Tests, z: Zone, rs: seq<NSEC3>, q: Name) returns (m: NSEC3, n: NSEC3, w: NSEC3)
    requires ValidZone(z) && Complete(t, z, rs, q) && z.apex <= q && forall x :: !Source(z, q, x)
    ensures m in rs && n in rs && w in rs
    ensures forall some :: Genuine(t, z, some, q) && m in some && n in some && w in some ==> NxProved(t, some, q)
  {
    hide Asked, Genuine, NxProved;
    CompleteIsGenuine(t, z, rs, q);
    NxExact(t, z, rs, q);
    NxIff(t, z, rs, q);
    var d: nat :| NxShown(t, rs, q, d);
    m :| m in rs && t.matches(m, q[..d]);
    n :| n in rs && t.covers(n, q[..d + 1]);
    w :| w in rs && t.covers(w, Wildcard(q[..d]));
    forall some | Genuine(t, z, some, q) && m in some && n in some && w in some ensures NxProved(t, some, q) {
      assert NxShown(t, some, q, d);
      NxIff(t, z, some, q);
    }
  }

  // ----- delegations -----

  /** The query is for another zone to answer: a delegation is above the name, or at it for any type but DS. */
  ghost predicate Elsewhere(z: Zone, q: Name, qtype: uint16)
    requires ValidZone(z)
  {
    exists x :: DelegatedAt(z, x, q, qtype)
  }

  ghost predicate DelegatedAt(z: Zone, x: Name, q: Name, qtype: uint16)
    requires ValidZone(z)
  {
    x in z.names && TYPE_NS in z.types[x] && TYPE_SOA !in z.types[x] && x <= q && !(x == q && qtype == TYPE_DS)
  }

  /** Whether the query has an answer, given what the delegated zones, by apex, have at which names. */
  ghost predicate AnswersAnywhere(z: Zone, below: (Name, Name, uint16) -> bool, q: Name, qtype: uint16)
    requires ValidZone(z)
  {
    if Elsewhere(z, q, qtype) then exists x :: DelegatedAt(z, x, q, qtype) && below(x, q, qtype)
    else exists x :: Source(z, q, x) && !Lacks(z.types[x], qtype)
  }

  /** Here too a delegation is never looked for: a proof is conclusive exactly if the query is not for a delegated zone. */
  lemma ConclusiveIff(t: Tests, z: Zone, rs: seq<NSEC3>, q: Name, qtype: uint16)
    requires ValidZone(z) && Genuine(t, z, rs, q)
    requires NxProved(t, rs, q) || (NoDataProved(t, rs, q, qtype) && !(qtype == TYPE_DS && OptOutCovers(t, rs, q)))
    ensures (forall below :: !AnswersAnywhere(z, below, q, qtype)) <==> !Elsewhere(z, q, qtype)
  {
    hide NxProved, NoDataProved, DelegatedAt, Genuine, IsEncloser;
    forall x ensures !(Source(z, q, x) && !Lacks(z.types[x], qtype)) {
      if NxProved(t, rs, q) {
        NxSound(t, z, rs, q, x);
      } else if Source(z, q, x) {
        var y := NoDataSound(t, z, rs, q, qtype);
        SourceUnique(z, q, x, y);
      }
    }
    if x :| DelegatedAt(z, x, q, qtype) {
      assert AnswersAnywhere(z, (_, _, _) => true, q, qtype);
    }
  }

  lemma SourceUnique(z: Zone, q: Name, x: Name, y: Name)
    requires Source(z, q, x) && Source(z, q, y)
    ensures x == y
  {
    if x != q {
      var d: nat :| IsEncloser(z, q, d) && x == Wildcard(q[..d]);
      EncloserUnique(z, q, d);
    }
  }

  // ----- the chain makes records genuine -----

  /** The tests on hashes: a match is equality, a cover an open span of the circular order. */
  predicate HashMatches(r: NSEC3, h: nat)
  {
    h == r.owner
  }

  predicate HashCovers(r: NSEC3, h: nat)
  {
    if r.owner < r.next then r.owner < h < r.next else h > r.owner || h < r.next
  }

  /** The chain of a zone under a hash: the hashes of its names in order, each name's types beside its hash. */
  ghost predicate HashedChain(z: Zone, hash: Name -> nat, chain: seq<nat>)
    requires ValidZone(z)
  {
    && (forall i, j :: 0 <= i < j < |chain| ==> chain[i] < chain[j])
    && (forall h :: h in chain <==> exists x :: x in z.names && hash(x) == h)
  }

  /** No name of the zone shares its hash with another one, nor with a different name the proof asks for. */
  ghost predicate ToldApart(z: Zone, hash: Name -> nat, q: Name)
  {
    forall x, y :: x in z.names && (y in z.names || Asked(q, y)) && hash(x) == hash(y) ==> x == y
  }

  /** The two tests on names are those on their hashes. */
  ghost predicate Hashing(t: Tests, hash: Name -> nat)
  {
    && (forall r, x :: t.matches(r, x) <==> HashMatches(r, hash(x)))
    && (forall r, x :: t.covers(r, x) <==> HashCovers(r, hash(x)))
  }

  ghost predicate FromHashedChain(z: Zone, hash: Name -> nat, chain: seq<nat>, r: NSEC3)
    requires ValidZone(z)
  {
    exists i :: 0 <= i < |chain| && SpanAt(z, hash, chain, r, i)
  }

  ghost predicate SpanAt(z: Zone, hash: Name -> nat, chain: seq<nat>, r: NSEC3, i: nat)
    requires ValidZone(z) && i < |chain|
  {
    && r.owner == chain[i]
    && r.next == (if i + 1 < |chain| then chain[i + 1] else chain[0])
    && forall x :: x in z.names && hash(x) == r.owner ==> r.types == z.types[x]
  }

  /** Where the hash tells the names apart, records of a zone's chain are genuine. */
  lemma ChainIsGenuine(t: Tests, z: Zone, hash: Name -> nat, chain: seq<nat>, rs: seq<NSEC3>, q: Name)
    requires ValidZone(z) && HashedChain(z, hash, chain) && ToldApart(z, hash, q) && Hashing(t, hash)
    requires forall r :: r in rs ==> FromHashedChain(z, hash, chain, r)
    ensures Genuine(t, z, rs, q)
  {
    hide Asked;
    forall r, x | r in rs && Asked(q, x) && t.matches(r, x) ensures x in z.names && r.types == z.types[x] {
      var i :| 0 <= i < |chain| && SpanAt(z, hash, chain, r, i);
      assert hash(x) in chain;
      var y :| y in z.names && hash(y) == hash(x);
    }
    forall r, x | r in rs && Asked(q, x) && t.covers(r, x) ensures x !in z.names {
      var i :| 0 <= i < |chain| && SpanAt(z, hash, chain, r, i);
      if x in z.names {
        assert hash(x) in chain;
        NotInGap(chain, r, i, hash(x));
      }
    }
  }

  /** Every span of the chain has its record. */
  ghost predicate WholeHashedChain(z: Zone, hash: Name -> nat, chain: seq<nat>, rs: seq<NSEC3>)
    requires ValidZone(z)
  {
    && (forall r :: r in rs ==> FromHashedChain(z, hash, chain, r))
    && (forall i :: 0 <= i < |chain| ==> HasSpan(z, hash, chain, rs, i))
  }

  ghost predicate HasSpan(z: Zone, hash: Name -> nat, chain: seq<nat>, rs: seq<NSEC3>, i: nat)
    requires ValidZone(z) && i < |chain|
  {
    exists r :: r in rs && SpanAt(z, hash, chain, r, i)
  }

  /** And the whole chain is complete: its spans leave no hash out. */
  lemma ChainIsComplete(t: Tests, z: Zone, hash: Name -> nat, chain: seq<nat>, rs: seq<NSEC3>, q: Name)
    requires ValidZone(z) && HashedChain(z, hash, chain) && ToldApart(z, hash, q) && Hashing(t, hash)
    requires WholeHashedChain(z, hash, chain, rs)
    ensures Complete(t, z, rs, q)
  {
    hide Asked;
    ChainIsGenuine(t, z, hash, chain, rs, q);
    forall x | Asked(q, x) && x in z.names ensures MatchAny(t, rs, x) {
      assert hash(x) in chain;
      var i :| 0 <= i < |chain| && chain[i] == hash(x);
      assert HasSpan(z, hash, chain, rs, i);
      var r :| r in rs && SpanAt(z, hash, chain, r, i);
    }
    forall x | Asked(q, x) && x !in z.names ensures CoverAny(t, rs, x) {
      assert hash(x) !in chain;
      assert hash(z.apex) in chain;
      var i := FindSpan(chain, hash(x), |chain|);
      assert HasSpan(z, hash, chain, rs, i);
      var r :| r in rs && SpanAt(z, hash, chain, r, i);
    }
  }

  /** The span of the first n that a hash outside the chain falls into, the last one taking what lies before or after all. */
  lemma {:induction false} FindSpan(chain: seq<nat>, h: nat, n: nat) returns (i: nat)
    requires h !in chain && 0 < n <= |chain| && forall i, j :: 0 <= i < j < |chain| ==> chain[i] < chain[j]
    requires n < |chain| ==> h < chain[n]
    ensures i < |chain|
    ensures if i + 1 < |chain| then chain[i] < h < chain[i + 1] else chain[i] < h || h < chain[0]
  {
    if chain[n - 1] < h {
      i := n - 1;
    } else if n == 1 {
      i := |chain| - 1;
    } else {
      i := FindSpan(chain, h, n - 1);
    }
  }

  /** So with the whole chain an NXDOMAIN is proved exactly when no name stands for the one asked for. */
  lemma NxExactByChain(t: Tests, z: Zone, hash: Name -> nat, chain: seq<nat>, rs: seq<NSEC3>, q: Name)
    requires ValidZone(z) && HashedChain(z, hash, chain) && ToldApart(z, hash, q) && Hashing(t, hash)
    requires WholeHashedChain(z, hash, chain, rs) && z.apex <= q
    ensures NxProved(t, rs, q) <==> forall x :: !Source(z, q, x)
  {
    ChainIsComplete(t, z, hash, chain, rs, q);
    NxExact(t, z, rs, q);
  }

  /** And a NODATA exactly if one does, without an answer. */
  lemma NoDataExactByChain(t: Tests, z: Zone, hash: Name -> nat, chain: seq<nat>, rs: seq<NSEC3>, q: Name, qtype: uint16)
    requires ValidZone(z) && HashedChain(z, hash, chain) && ToldApart(z, hash, q) && Hashing(t, hash)
    requires WholeHashedChain(z, hash, chain, rs) && z.apex <= q
    requires !(qtype == TYPE_DS && OptOutCovers(t, rs, q))
    ensures NoDataProved(t, rs, q, qtype) <==> exists x :: Source(z, q, x) && Lacks(z.types[x], qtype)
  {
    ChainIsComplete(t, z, hash, chain, rs, q);
    NoDataExact(t, z, rs, q, qtype);
  }

  lemma NotInGap(chain: seq<nat>, r: NSEC3, i: nat, h: nat)
    requires i < |chain| && forall i, j :: 0 <= i < j < |chain| ==> chain[i] < chain[j]
    requires r.owner == chain[i] && r.next == if i + 1 < |chain| then chain[i + 1] else chain[0]
    requires h in chain
    ensures !HashCovers(r, h)
  {
    var j :| 0 <= j < |chain| && chain[j] == h;
    assert j < i || j == i || j == i + 1 || j > i + 1;
  }
}
