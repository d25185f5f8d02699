/** The records, messages and cryptographic tests the DNSSEC validator works on. */
module DnsRecords {
  import opened Octets
  import opened CanonicalOrder
  import opened RecordTypes
  import Nsec
  import Nsec3

  const RCODE_SUCCESS: nat := 0
  const RCODE_NXDOMAIN: nat := 3

  const KSK_FLAGS: uint16 := 257
  const ZSK_FLAGS: uint16 := 256

  const ROOT: Name := []

  datatype DnsKey = DnsKey(owner: Name, ttl: uint32, flags: uint16, alg: nat, tag: nat, id: nat)
  datatype DsRec = DsRec(owner: Name, ttl: uint32, id: nat)
  datatype Sig = Sig(owner: Name, covered: uint16, signer: Name, alg: nat, tag: nat, id: nat)

  datatype RR =
    | KeyRR(key: DnsKey)
    | DsRR(ds: DsRec)
    | SigRR(sig: Sig)
    | NsecRR(nsec: Nsec.NSEC)
    | Nsec3RR(nsec3Owner: Name, nsec3: Nsec3.NSEC3)
    | OtherRR(otherOwner: Name, otherType: uint16, id: nat)
  {
    function Owner(): Name
    {
      match this
      case KeyRR(k) => k.owner
      case DsRR(d) => d.owner
      case SigRR(s) => s.owner
      case NsecRR(n) => n.owner
      case Nsec3RR(o, _) => o
      case OtherRR(o, _, _) => o
    }

    function Type(): uint16
    {
      match this
      case KeyRR(_) => TYPE_DNSKEY
      case DsRR(_) => TYPE_DS
      case SigRR(_) => TYPE_RRSIG
      case NsecRR(_) => TYPE_NSEC
      case Nsec3RR(_, _) => TYPE_NSEC3
      case OtherRR(_, t, _) => t
    }
  }

  datatype Question = Question(name: Name, qtype: uint16)
  datatype Msg = Msg(question: seq<Question>, rcode: nat, answer: seq<RR>, authority: seq<RR>)

  /** What a query upstream comes back with. */
  datatype Reply = Replied(msg: Msg) | QueryFailed(code: nat)

  datatype Error =
    | NoSignature | NoKey | SignatureInvalid | SignatureExpired | DSMismatch | NoTrustAnchor
    | InsecureDelegation | SignerOutOfBailiwick | DenialNotProven | BogusDenial
    | LookupFailed(code: nat)

  /** Signature checks, validity periods, DS digests and NSEC3 hashing, left uninterpreted. */
  datatype Crypto = Crypto(
    verify: (Sig, DnsKey, seq<RR>) -> bool,
    inPeriod: (Sig, int) -> bool,
    digestMatches: (DnsKey, DsRec) -> bool,
    nsec3: Nsec3.Tests)

  // ----- verifying one signature -----

  /** An RRSIG inside its validity period that one of the keys, by tag and algorithm, verifies. */
  ghost predicate Verified(c: Crypto, sig: Sig, keys: seq<DnsKey>, rrset: seq<RR>, now: int)
  {
    && c.inPeriod(sig, now)
    && exists k :: k in keys && k.tag == sig.tag && k.alg == sig.alg && c.verify(sig, k, rrset)
  }

  function FindKeysByTag(keys: seq<DnsKey>, tag: nat, alg: nat): (r: seq<DnsKey>)
    ensures forall k :: k in r <==> k in keys && k.tag == tag && k.alg == alg
  {
    if keys == [] then []
    else
      var rest := FindKeysByTag(keys[1..], tag, alg);
      if keys[0].tag == tag && keys[0].alg == alg then [keys[0]] + rest else rest
  }

  /** verifyRRSIG */
  method VerifyRRSIG(c: Crypto, sig: Sig, keys: seq<DnsKey>, rrset: seq<RR>, now: int) returns (err: Option<Error>)
    ensures err.None? <==> Verified(c, sig, keys, rrset, now)
    ensures err.Some? ==> !err.value.InsecureDelegation?
  {
    if !c.inPeriod(sig, now) {
      return Some(SignatureExpired);
    }
    var matching := FindKeysByTag(keys, sig.tag, sig.alg);
    if |matching| == 0 {
      return Some(NoKey);
    }
    var i := 0;
    while i < |matching|
      invariant 0 <= i <= |matching|
      invariant forall j :: 0 <= j < i ==> !c.verify(sig, matching[j], rrset)
    {
      if c.verify(sig, matching[i], rrset) {
        assert matching[i] in keys;
        return None;
      }
      i := i + 1;
    }
    assert forall k :: k in keys && k.tag == sig.tag && k.alg == sig.alg ==> k in matching;
    return Some(SignatureInvalid);
  }

  /** verifyAnyRRSIG */
  method VerifyAnyRRSIG(c: Crypto, sigs: seq<Sig>, keys: seq<DnsKey>, rrset: seq<RR>, now: int)
    returns (ok: bool, ghost signed: Option<Sig>)
    ensures ok <==> exists s :: s in sigs && Verified(c, s, keys, rrset, now)
    ensures ok ==> signed.Some? && signed.value in sigs && Verified(c, signed.value, keys, rrset, now)
  {
    signed := None;
    var i := 0;
    while i < |sigs|
      invariant 0 <= i <= |sigs|
      invariant forall j :: 0 <= j < i ==> !Verified(c, sigs[j], keys, rrset, now)
    {
      var err := VerifyRRSIG(c, sigs[i], keys, rrset, now);
      if err.None? {
        return true, Some(sigs[i]);
      }
      i := i + 1;
    }
    return false, None;
  }

  /** filterKeysByDS */
  function FilterKeysByDS(c: Crypto, keys: seq<DnsKey>, ds: seq<DsRec>): (r: seq<DnsKey>)
    ensures forall k :: k in r <==> k in keys && exists d :: d in ds && c.digestMatches(k, d)
  {
    if keys == [] then []
    else
      var rest := FilterKeysByDS(c, keys[1..], ds);
      if exists d :: d in ds && c.digestMatches(keys[0], d) then [keys[0]] + rest else rest
  }

  // ----- grouping a section -----

  datatype SetKey = SetKey(name: Name, rtype: uint16)

  function KeyOf(rr: RR): SetKey
  {
    SetKey(rr.Owner(), rr.Type())
  }

  /** The records of one RRset, in section order. */
  function RRsetOf(section: seq<RR>, key: SetKey): (r: seq<RR>)
    ensures forall rr :: rr in r ==> rr in section && !rr.SigRR? && KeyOf(rr) == key
    ensures forall rr :: rr in section && !rr.SigRR? && KeyOf(rr) == key ==> rr in r
  {
    if section == [] then []
    else
      var n := |section| - 1;
      var front := RRsetOf(section[..n], key);
      if !section[n].SigRR? && KeyOf(section[n]) == key then front + [section[n]] else front
  }

  /** The signatures covering one RRset, in section order. */
  function SigsOf(section: seq<RR>, key: SetKey): (r: seq<Sig>)
    ensures forall s :: s in r ==> SigRR(s) in section && SetKey(s.owner, s.covered) == key
  {
    if section == [] then []
    else
      var n := |section| - 1;
      var front := SigsOf(section[..n], key);
      if section[n].SigRR? && SetKey(section[n].sig.owner, section[n].sig.covered) == key
      then front + [section[n].sig] else front
  }

  type RRsets = map<SetKey, seq<RR>>
  type Sigs = map<SetKey, seq<Sig>>

  function SigsFor(sigs: Sigs, key: SetKey): seq<Sig>
  {
    if key in sigs then sigs[key] else []
  }

  /** groupRRsByTypeAndName: one RRset per owner and type, and every signature with the set it covers. */
  method GroupRRs(section: seq<RR>) returns (rrsets: RRsets, sigs: Sigs)
    ensures forall k :: k in rrsets <==> RRsetOf(section, k) != []
    ensures forall k :: k in rrsets ==> rrsets[k] == RRsetOf(section, k)
    ensures forall k :: SigsFor(sigs, k) == SigsOf(section, k)
  {
    rrsets, sigs := map[], map[];
    var i := 0;
    while i < |section|
      invariant 0 <= i <= |section|
      invariant forall k :: k in rrsets <==> RRsetOf(section[..i], k) != []
      invariant forall k :: k in rrsets ==> rrsets[k] == RRsetOf(section[..i], k)
      invariant forall k :: SigsFor(sigs, k) == SigsOf(section[..i], k)
    {
      var rr := section[i];
      assert section[..i + 1][..i] == section[..i];
      if rr.SigRR? {
        var key := SetKey(rr.sig.owner, rr.sig.covered);
        sigs := sigs[key := SigsFor(sigs, key) + [rr.sig]];
      } else {
        var key := KeyOf(rr);
        rrsets := rrsets[key := (if key in rrsets then rrsets[key] else []) + [rr]];
      }
      i := i + 1;
    }
    assert section[..i] == section;
  }
}
