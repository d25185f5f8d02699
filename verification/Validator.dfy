/**
 * The DNSSEC validator: the chain of trust with its key cache, against an
 * arbitrary upstream and an arbitrary clock, and the evidence behind every
 * verdict it reaches.
 */
module Validator {
  import opened Octets
  import opened CanonicalOrder
  import opened RecordTypes
  import opened DnsRecords
  import opened Keystore
  import Nsec
  import Nsec3

  // ----- evidence -----

  /** How the keys of a zone came to be trusted, step by step from the root anchor. */
  datatype Chain =
    | Root(zsk: seq<DnsKey>, ksk: seq<DnsKey>, ds: seq<DsRec>, keySig: Sig, at: int)
    | Delegated(parent: Chain, zone: Name, zsk: seq<DnsKey>, ksk: seq<DnsKey>, ds: seq<DsRec>,
                dsSig: Sig, dsAt: int, keySig: Sig, at: int)
  {
    function Of(): Name
    {
      if Root? then ROOT else zone
    }
  }

  function KeyRRs(keys: seq<DnsKey>): seq<RR>
  {
    seq(|keys|, i requires 0 <= i < |keys| => KeyRR(keys[i]))
  }

  function DsRRs(ds: seq<DsRec>): seq<RR>
  {
    seq(|ds|, i requires 0 <= i < |ds| => DsRR(ds[i]))
  }

  /** The DNSKEY set of a zone signed by one of its own keys that matches an accepted DS. */
  ghost predicate KeysAccepted(c: Crypto, zone: Name, zsk: seq<DnsKey>, ksk: seq<DnsKey>, ds: seq<DsRec>, sig: Sig, at: int)
  {
    && sig.signer == zone && sig.covered == TYPE_DNSKEY
    && Verified(c, sig, FilterKeysByDS(c, ksk, ds), KeyRRs(zsk) + KeyRRs(ksk), at)
  }

  /** Every link holds: the root's DS are configured anchors, each other zone's DS set is signed by its parent's keys. */
  ghost predicate Linked(c: Crypto, anchors: seq<DsRec>, ch: Chain)
  {
    && KeysAccepted(c, ch.Of(), ch.zsk, ch.ksk, ch.ds, ch.keySig, ch.at)
    && match ch
       case Root(_, _, ds, _, _) => forall d :: d in ds ==> d in anchors
       case Delegated(parent, zone, _, _, ds, dsSig, dsAt, _, _) =>
         && zone != [] && parent.Of() == zone[..|zone| - 1]
         && ds != [] && Verified(c, dsSig, parent.zsk, DsRRs(ds), dsAt)
         && Linked(c, anchors, parent)
  }

  lemma {:induction false} LinkedMonotone(c: Crypto, anchors: seq<DsRec>, more: seq<DsRec>, ch: Chain)
    requires Linked(c, anchors, ch) && forall d :: d in anchors ==> d in more
    ensures Linked(c, more, ch)
    decreases ch
  {
    if ch.Delegated? { LinkedMonotone(c, anchors, more, ch.parent); }
  }

  // ----- whose DS records -----

  /** The DS set of every step is owned by the zone of that step. */
  ghost predicate OwnDs(ch: Chain)
  {
    ch.Delegated? ==> (forall d :: d in ch.ds ==> d.owner == ch.zone) && OwnDs(ch.parent)
  }

  /** A DS reply all of whose records are owned by the name asked about. */
  ghost predicate OwnReply(r: Reply, p: Name)
  {
    r.Replied? && r.msg.rcode == RCODE_SUCCESS ==> forall d :: d in DsIn(r.msg.answer) ==> d.owner == p
  }

  /** A digest that covers the name of the key's owner (section 5.1.4 of RFC 4034). */
  ghost predicate DigestBindsOwner(c: Crypto)
  {
    forall k, d :: c.digestMatches(k, d) ==> k.owner == d.owner
  }

  /** A signature check that fails unless the signer it names owns the key (section 5.3.1 of RFC 4035). */
  ghost predicate SignerOwnsKey(c: Crypto)
  {
    forall s, k, rrset :: c.verify(s, k, rrset) ==> k.owner == s.signer
  }

  /** Behind the keys of every step stands a DS record of the zone of that step. */
  ghost predicate OwnVouched(ch: Chain)
  {
    (exists d :: d in ch.ds && d.owner == ch.Of()) && (ch.Delegated? ==> OwnVouched(ch.parent))
  }

  /** With both, foreign DS records in a set vouch for nothing: each zone rests on one of its own. */
  lemma {:induction false} VouchedByOwn(c: Crypto, anchors: seq<DsRec>, ch: Chain)
    requires Linked(c, anchors, ch) && DigestBindsOwner(c) && SignerOwnsKey(c)
    ensures OwnVouched(ch)
    decreases ch
  {
    hide FilterKeysByDS, KeyRRs, DsRRs;
    assert KeysAccepted(c, ch.Of(), ch.zsk, ch.ksk, ch.ds, ch.keySig, ch.at) by { LinkedKeys(c, anchors, ch); }
    var k :| k in FilterKeysByDS(c, ch.ksk, ch.ds) && c.verify(ch.keySig, k, KeyRRs(ch.zsk) + KeyRRs(ch.ksk));
    var d :| d in ch.ds && c.digestMatches(k, d);
    match ch {
      case Root(_, _, _, _, _) =>
      case Delegated(parent, _, _, _, _, _, _, _, _) => VouchedByOwn(c, anchors, parent);
    }
  }

  lemma LinkedKeys(c: Crypto, anchors: seq<DsRec>, ch: Chain)
    requires Linked(c, anchors, ch)
    ensures KeysAccepted(c, ch.Of(), ch.zsk, ch.ksk, ch.ds, ch.keySig, ch.at)
  {
  }

  /** bitmapProvesInsecureDelegation */
  predicate InsecureBitmap(types: seq<uint16>)
  {
    TYPE_NS in types && TYPE_DS !in types && TYPE_SOA !in types
  }

  /** nsecDeniesDS and nsec3DeniesDS */
  predicate DeniesDS(c: Crypto, rr: RR, name: Name)
  {
    match rr
    case NsecRR(n) => n.owner == name && InsecureBitmap(n.types)
    case Nsec3RR(_, r) =>
      if c.nsec3.matches(r, name) then InsecureBitmap(r.types) else r.optOut && c.nsec3.covers(r, name)
    case _ => false
  }

  /** An authenticated denial of a zone's DS: a record that denies it, signed by keys the chain accepts for its parent. */
  datatype Denial = Denial(zone: Name, parent: Chain, rrset: seq<RR>, record: RR, sig: Sig, at: int)

  ghost predicate Proven(c: Crypto, anchors: seq<DsRec>, d: Denial)
  {
    && d.zone != [] && d.parent.Of() == d.zone[..|d.zone| - 1]
    && Linked(c, anchors, d.parent)
    && d.record in d.rrset && DeniesDS(c, d.record, d.zone)
    && Verified(c, d.sig, d.parent.zsk, d.rrset, d.at)
  }

  /** An RRset verified under a chain whose zone is the signer. */
  datatype Acceptance = Acceptance(chain: Chain, sig: Sig, at: int)

  ghost predicate Accepted(c: Crypto, anchors: seq<DsRec>, rrset: seq<RR>, a: Acceptance)
  {
    && Linked(c, anchors, a.chain) && a.chain.Of() == a.sig.signer
    && Verified(c, a.sig, a.chain.zsk, rrset, a.at)
  }

  /** An RRset accepted under a signer at or above a name. */
  ghost predicate AcceptedAt(c: Crypto, anchors: seq<DsRec>, rrset: seq<RR>, name: Name, a: Acceptance)
  {
    Accepted(c, anchors, rrset, a) && AtOrUnder(name, a.sig.signer)
  }

  /** An insecure verdict about a name is backed: some zone at or above it has its DS authentically denied. */
  ghost predicate Backs(c: Crypto, anchors: seq<DsRec>, d: Option<Denial>, name: Name)
  {
    d.Some? && Proven(c, anchors, d.value) && AtOrUnder(name, d.value.zone)
  }

  /** A record that belongs to an authority RRset accepted from at or above a name. */
  ghost predicate Authentic(c: Crypto, anchors: seq<DsRec>, ns: seq<RR>, qname: Name, rr: RR)
  {
    exists key, a :: rr in RRsetOf(ns, key) && AcceptedAt(c, anchors, RRsetOf(ns, key), qname, a)
  }

  ghost predicate AllAuthentic(c: Crypto, anchors: seq<DsRec>, ns: seq<RR>, qname: Name,
                               nsecs: seq<Nsec.NSEC>, nsec3s: seq<Nsec3.NSEC3>)
  {
    && (forall n :: n in nsecs ==> Authentic(c, anchors, ns, qname, NsecRR(n)))
    && (forall r :: r in nsec3s ==> exists o :: Authentic(c, anchors, ns, qname, Nsec3RR(o, r)))
  }

  /** What an NSEC proof of the response code must show. */
  ghost predicate NsecDenies(nsecs: seq<Nsec.NSEC>, q: Question, rcode: nat)
  {
    && nsecs != []
    && ((rcode == RCODE_NXDOMAIN && Nsec.NxProof(nsecs, q.name))
        || (rcode == RCODE_SUCCESS && Nsec.NoDataProof(nsecs, q.name, q.qtype)))
  }

  ghost predicate Nsec3Denies(t: Nsec3.Tests, rs: seq<Nsec3.NSEC3>, q: Question, rcode: nat)
  {
    && rs != []
    && ((rcode == RCODE_NXDOMAIN && (Nsec3.NxProved(t, rs, q.name) || Nsec3.NxOptedOut(t, rs, q.name)))
        || (rcode == RCODE_SUCCESS && Nsec3.NoDataProved(t, rs, q.name, q.qtype)))
  }

  /** nsecProvesDenial */
  method NsecProvesDenial(nsecs: seq<Nsec.NSEC>, q: Question, rcode: nat) returns (ok: bool)
    ensures ok <==> NsecDenies(nsecs, q, rcode)
  {
    if |nsecs| == 0 {
      return false;
    }
    if rcode == RCODE_NXDOMAIN {
      ok := Nsec.ProvesNXDOMAIN(nsecs, q.name);
    } else if rcode == RCODE_SUCCESS {
      ok := Nsec.ProvesNODATA(nsecs, q.name, q.qtype);
    } else {
      ok := false;
    }
  }

  /** nsec3ProvesDenial */
  method Nsec3ProvesDenial(t: Nsec3.Tests, rs: seq<Nsec3.NSEC3>, q: Question, rcode: nat) returns (ok: bool)
    ensures ok <==> Nsec3Denies(t, rs, q, rcode)
  {
    hide Nsec3.NxProved, Nsec3.NxOptedOut, Nsec3.NoDataProved;
    if |rs| == 0 {
      return false;
    }
    if rcode == RCODE_NXDOMAIN {
      var optOut;
      ok, optOut := Nsec3.ProvesNXDOMAIN(t, rs, q.name);
    } else if rcode == RCODE_SUCCESS {
      ok := Nsec3.ProvesNODATA(t, rs, q.name, q.qtype);
    } else {
      ok := false;
    }
  }

  /** The NSEC and NSEC3 records of an RRset. */
  function Denials(rrset: seq<RR>): (r: seq<Nsec.NSEC>)
    ensures forall n :: n in r <==> NsecRR(n) in rrset
  {
    if rrset == [] then []
    else (if rrset[0].NsecRR? then [rrset[0].nsec] else []) + Denials(rrset[1..])
  }

  function Denials3(rrset: seq<RR>): (r: seq<Nsec3.NSEC3>)
    ensures forall n :: n in r <==> exists o :: Nsec3RR(o, n) in rrset
  {
    if rrset == [] then []
    else (if rrset[0].Nsec3RR? then [rrset[0].nsec3] else []) + Denials3(rrset[1..])
  }

  /** The evidence behind a verdict on a response. */
  datatype Verdict = Verdict(accepted: map<SetKey, Acceptance>, nsecs: seq<Nsec.NSEC>, nsec3s: seq<Nsec3.NSEC3>,
                             denial: Option<Denial>)

  /** Every RRset of the answer verified; or there is no answer, and authenticated records deny one. */
  ghost predicate Justified(c: Crypto, anchors: seq<DsRec>, m: Msg, v: Verdict)
  {
    if m.answer != [] then
      forall rr :: rr in m.answer && !rr.SigRR? ==>
        && KeyOf(rr) in v.accepted && v.accepted[KeyOf(rr)].sig in SigsOf(m.answer, KeyOf(rr))
        && AcceptedAt(c, anchors, RRsetOf(m.answer, KeyOf(rr)), rr.Owner(), v.accepted[KeyOf(rr)])
    else
      && m.question != []
      && AllAuthentic(c, anchors, m.authority, m.question[0].name, v.nsecs, v.nsec3s)
      && Denied(c, m, v.nsecs, v.nsec3s)
  }

  /** The records prove what the response code of a negative response says. */
  ghost predicate Denied(c: Crypto, m: Msg, nsecs: seq<Nsec.NSEC>, nsec3s: seq<Nsec3.NSEC3>)
  {
    m.question != [] && (NsecDenies(nsecs, m.question[0], m.rcode) || Nsec3Denies(c.nsec3, nsec3s, m.question[0], m.rcode))
  }

  /** A name a response is about: the question's, or the owner of a record in the answer. */
  predicate NameIn(m: Msg, name: Name)
  {
    (m.question != [] && m.question[0].name == name) || exists rr :: rr in m.answer && rr.Owner() == name
  }

  datatype ChainResult = Keys(zsk: seq<DnsKey>, ksk: seq<DnsKey>) | Failed(err: Error)

  // ----- denial of a DS -----

  datatype DsDenial = DsDenial(rrset: seq<RR>, record: RR, sig: Sig)

  ghost predicate DenialShown(c: Crypto, keys: seq<DnsKey>, name: Name, now: int, d: DsDenial)
  {
    && d.record in d.rrset && DeniesDS(c, d.record, name)
    && Verified(c, d.sig, keys, d.rrset, now)
  }

  /** verifyDSDenial, over the RRsets of the authority section in any order. */
  method VerifyDSDenial(c: Crypto, resp: Msg, name: Name, keys: seq<DnsKey>, now: int)
    returns (err: Option<Error>, ghost shown: Option<DsDenial>)
    ensures err.None? ==> shown.Some? && DenialShown(c, keys, name, now, shown.value)
    ensures err.Some? ==> err.value == BogusDenial
    ensures err.Some? ==> forall k: SetKey :: IsDenialType(k.rtype) ==>
              SetDeniesNothing(c, RRsetOf(resp.authority, k), SigsOf(resp.authority, k), name, keys, now)
  {
    hide Verified, DeniesDS, RRsetOf, SigsOf;
    shown := None;
    var rrsets, sigs := GroupRRs(resp.authority);
    var todo := rrsets.Keys;
    while todo != {}
      invariant todo <= rrsets.Keys
      invariant forall k :: k in rrsets && k !in todo && IsDenialType(k.rtype) ==>
                  SetDeniesNothing(c, rrsets[k], SigsFor(sigs, k), name, keys, now)
    {
      var key :| key in todo;
      todo := todo - {key};
      if IsDenialType(key.rtype) {
        var rrset := rrsets[key];
        var ok, signed := VerifyAnyRRSIG(c, SigsFor(sigs, key), keys, rrset, now);
        if ok {
          var i := 0;
          while i < |rrset|
            invariant 0 <= i <= |rrset|
            invariant forall j :: 0 <= j < i ==> !DeniesDS(c, rrset[j], name)
          {
            if DeniesDS(c, rrset[i], name) {
              return None, Some(DsDenial(rrset, rrset[i], signed.value));
            }
            i := i + 1;
          }
        }
      }
    }
    forall k: SetKey | IsDenialType(k.rtype)
      ensures SetDeniesNothing(c, RRsetOf(resp.authority, k), SigsOf(resp.authority, k), name, keys, now)
    {
      assert SigsFor(sigs, k) == SigsOf(resp.authority, k);
      assert k in rrsets <==> RRsetOf(resp.authority, k) != [];
    }
    return Some(BogusDenial), None;
  }

  predicate IsDenialType(t: uint16)
  {
    t == TYPE_NSEC || t == TYPE_NSEC3
  }

  /** No record of a set denies the DS, or no signature on the set verifies. */
  ghost predicate SetDeniesNothing(c: Crypto, rrset: seq<RR>, sigs: seq<Sig>, name: Name, keys: seq<DnsKey>, now: int)
  {
    forall s, rr :: s in sigs && rr in rrset ==> !(DeniesDS(c, rr, name) && Verified(c, s, keys, rrset, now))
  }

  // ----- what a response carries -----

  function KeysIn(section: seq<RR>): seq<DnsKey>
  {
    if section == [] then []
    else
      var n := |section| - 1;
      KeysIn(section[..n]) + if section[n].KeyRR? then [section[n].key] else []
  }

  lemma NoKeys()
    ensures KeysIn([]) == [] && forall f :: WithFlags([], f) == []
  {
  }

  lemma KeysSnoc(section: seq<RR>, rr: RR)
    ensures forall f ::
      WithFlags(KeysIn(section + [rr]), f) ==
      WithFlags(KeysIn(section), f) + (if rr.KeyRR? && rr.key.flags == f then [rr.key] else [])
  {
    var keys := KeysIn(section);
    assert (section + [rr])[..|section|] == section;
    if rr.KeyRR? {
      assert (keys + [rr.key])[..|keys|] == keys;
      assert KeysIn(section + [rr]) == keys + [rr.key];
    } else {
      assert KeysIn(section + [rr]) == keys;
    }
  }

  function DsIn(section: seq<RR>): seq<DsRec>
  {
    if section == [] then []
    else
      var n := |section| - 1;
      DsIn(section[..n]) + if section[n].DsRR? then [section[n].ds] else []
  }

  /** Keys held for a zone are backed by a chain that accepts exactly those keys for that zone. */
  ghost predicate Backed(c: Crypto, anchors: seq<DsRec>, zone: Name, keys: KeySet, ch: Chain)
  {
    Linked(c, anchors, ch) && ch.Of() == zone && ch.zsk == keys.zsk && ch.ksk == keys.ksk
  }

  lemma BackedBy(c: Crypto, anchors: seq<DsRec>, zone: Name, keys: KeySet, ch: Chain)
    requires Linked(c, anchors, ch) && ch.Of() == zone && ch.zsk == keys.zsk && ch.ksk == keys.ksk
    ensures Backed(c, anchors, zone, keys, ch)
  {
    hide Linked;
  }

  // ----- an upstream that plays by the rules -----

  /** What a signed zone publishes. */
  datatype ZoneData = ZoneData(zsk: seq<DnsKey>, ksk: seq<DnsKey>, ds: seq<DsRec>)

  type World = Name -> ZoneData

  ghost predicate AlwaysVerified(c: Crypto, clock: nat -> int, sig: Sig, keys: seq<DnsKey>, rrset: seq<RR>)
  {
    forall t :: Verified(c, sig, keys, rrset, clock(t))
  }

  /** A reply with the zone's keys and a signature over them by a key its DS vouches for. */
  ghost predicate HonestKeys(c: Crypto, clock: nat -> int, w: World, p: Name, r: Reply)
  {
    && r.Replied? && r.msg.rcode == RCODE_SUCCESS
    && WithFlags(KeysIn(r.msg.answer), ZSK_FLAGS) == w(p).zsk && WithFlags(KeysIn(r.msg.answer), KSK_FLAGS) == w(p).ksk
    && w(p).ksk != []
    && exists s :: SigRR(s) in r.msg.answer && s.signer == p && s.covered == TYPE_DNSKEY
                   && AlwaysVerified(c, clock, s, FilterKeysByDS(c, w(p).ksk, w(p).ds), KeyRRs(w(p).zsk) + KeyRRs(w(p).ksk))
  }

  /** A reply with the zone's DS records and the parent's signature over them. */
  ghost predicate HonestDs(c: Crypto, clock: nat -> int, w: World, p: Name, r: Reply)
    requires p != ROOT
  {
    && r.Replied? && r.msg.rcode == RCODE_SUCCESS
    && DsIn(r.msg.answer) == w(p).ds && w(p).ds != []
    && exists s :: SigRR(s) in r.msg.answer && s.covered == TYPE_DS
                   && AlwaysVerified(c, clock, s, w(p[..|p| - 1]).zsk, DsRRs(w(p).ds))
  }

  type Upstream = (nat, Name, uint16) -> Reply

  /** The upstream always tells a zone's keys and, below a zone of that world, its DS records. */
  ghost predicate HonestZone(c: Crypto, upstream: Upstream, clock: nat -> int, w: World, zones: set<Name>, p: Name)
  {
    && (forall t :: HonestKeys(c, clock, w, p, upstream(t, p, TYPE_DNSKEY)))
    && (p != ROOT && p[..|p| - 1] in zones ==> forall t :: HonestDs(c, clock, w, p, upstream(t, p, TYPE_DS)))
  }

  /** Every label between the root and a name is a signed zone of that world. */
  ghost predicate AllCuts(zones: set<Name>, name: Name)
  {
    forall k :: 0 <= k <= |name| ==> name[..k] in zones
  }

  lemma CutsAbove(zones: set<Name>, name: Name, k: nat)
    requires AllCuts(zones, name) && k <= |name|
    ensures AllCuts(zones, name[..k])
  {
    assert forall j :: 0 <= j <= k ==> name[..k][..j] == name[..j];
  }

  /** Everything verifies. */
  function Lenient(nsec3: Nsec3.Tests): Crypto
  {
    Crypto((_, _, _) => true, (_, _) => true, (_, _) => true, nsec3)
  }

  /** A reply with a key-signing key. */
  ghost predicate HasKsk(r: Reply)
  {
    r.Replied? && r.msg.rcode == RCODE_SUCCESS && WithFlags(KeysIn(r.msg.answer), KSK_FLAGS) != []
  }

  lemma VerifiedHasKey(c: Crypto, clock: nat -> int, sig: Sig, keys: seq<DnsKey>, rrset: seq<RR>)
    requires AlwaysVerified(c, clock, sig, keys, rrset)
    ensures keys != []
  {
    assert Verified(c, sig, keys, rrset, clock(0));
  }

  class Validator {
    const crypto: Crypto
    /** The reply to a query and the reading of the clock, each depending on how many came before. */
    const upstream: Upstream
    const clock: nat -> int
    const ks: Store
    var ticks: nat
    ghost var proofs: map<Name, Chain>
    /** A world to compare the upstream with: some signed zones, and what each publishes. */
    ghost const world: World
    ghost const zones: set<Name>

    /** The upstream is honest about those zones, the anchor is the root's and stands, and so do the keys cached for them. */
    ghost predicate Honest()
      reads ks
    {
      && (forall p :: p in zones ==> HonestZone(crypto, upstream, clock, world, zones, p))
      && ROOT in ks.store && ks.store[ROOT].ds.Some?
      && ks.store[ROOT].ds.value.records == world(ROOT).ds != []
      && (forall t :: clock(t) <= ks.store[ROOT].ds.value.expiresAt)
      && (forall p :: p in zones && ks.Held(p).Some? ==>
            ks.Held(p).value.zsk == world(p).zsk && ks.Held(p).value.ksk == world(p).ksk)
    }

    /** No usable keys are cached for a zone. */
    ghost predicate Uncached(p: Name)
      reads ks
    {
      ks.Held(p).Some? ==> ks.Held(p).value.zsk == [] && ks.Held(p).value.ksk == []
    }

    /** At a name's first k labels the upstream never publishes a key-signing key, and nothing is cached from there on down. */
    ghost predicate GapAt(name: Name, k: nat)
      reads ks
    {
      && k <= |name| && (forall t :: !HasKsk(upstream(t, name[..k], TYPE_DNSKEY)))
      && forall j :: k <= j <= |name| ==> Uncached(name[..j])
    }

    ghost predicate Gap(name: Name)
      reads ks
    {
      exists k :: GapAt(name, k)
    }

    /** Outside the zones of the world there are no such keys. */
    ghost predicate OnlyZones(name: Name)
      reads ks
    {
      forall k :: 0 <= k <= |name| && name[..k] !in zones ==> GapAt(name, k)
    }

    lemma GapAbove(name: Name, k: nat)
      requires GapAt(name, k) && k < |name|
      ensures Gap(name[..|name| - 1]) && Uncached(name)
    {
      var above := name[..|name| - 1];
      assert above[..k] == name[..k] && name[..|name|] == name;
      forall j | k <= j <= |above| ensures Uncached(above[..j]) {
        assert above[..j] == name[..j];
      }
      assert GapAt(above, k);
    }

    /** Every DS reply about a name, or none, is of that name's own records. */
    ghost predicate OwnAt(p: Name)
    {
      forall t :: OwnReply(upstream(t, p, TYPE_DS), p)
    }

    ghost predicate ForeignAt(p: Name)
    {
      forall t :: !OwnReply(upstream(t, p, TYPE_DS), p)
    }

    ghost predicate OwnUpstream()
    {
      forall p :: p != ROOT ==> OwnAt(p)
    }

    /** DS replies on the way to a name are of each zone's own records, and so are those behind the keys cached there. */
    ghost predicate OwnPath(name: Name)
      reads `proofs, ks
    {
      && (forall k :: 0 < k <= |name| ==> OwnAt(name[..k]))
      && (forall k :: 0 <= k <= |name| && ks.Held(name[..k]).Some? ==> name[..k] in proofs && OwnDs(proofs[name[..k]]))
    }

    /** At one of them they never are, and nothing is cached from there on down. */
    ghost predicate ForeignPath(name: Name)
      reads ks
    {
      exists k :: 0 < k <= |name| && ForeignFrom(name, k)
    }

    ghost predicate ForeignFrom(name: Name, k: nat)
      requires k <= |name|
      reads ks
    {
      ForeignAt(name[..k]) && forall j :: k <= j <= |name| ==> Uncached(name[..j])
    }

    lemma PathAbove(name: Name)
      requires name != ROOT
      ensures OwnPath(name) ==> OwnPath(name[..|name| - 1]) && OwnAt(name)
      ensures ForeignPath(name) ==> Uncached(name) && (ForeignAt(name) || ForeignPath(name[..|name| - 1]))
    {
      hide OwnAt, ForeignAt, OwnDs;
      var above := name[..|name| - 1];
      assert name[..|name|] == name;
      assert forall k :: 0 <= k <= |above| ==> above[..k] == name[..k];
      if k: nat :| 0 < k <= |name| && ForeignFrom(name, k) {
        assert k < |name| ==> ForeignFrom(above, k);
      }
    }

    lemma OwnUpstreamPath(name: Name)
      requires Valid() && OwnUpstream()
      ensures OwnPath(name)
    {
    }

    ghost predicate Valid()
      reads this, ks
    {
      && (forall n :: ks.Held(n).Some? ==> n in proofs && Backed(crypto, ks.Anchors(), n, ks.Held(n).value, proofs[n]))
      && (OwnUpstream() ==> forall n :: ks.Held(n).Some? ==> OwnDs(proofs[n]))
    }

    constructor (crypto: Crypto, upstream: Upstream, clock: nat -> int,
                 ghost world: World, ghost zones: set<Name>)
      ensures Valid() && fresh(ks) && ks.store == map[] && ticks == 0
      ensures this.crypto == crypto && this.upstream == upstream && this.clock == clock
      ensures this.world == world && this.zones == zones
    {
      this.crypto, this.upstream, this.clock := crypto, upstream, clock;
      this.world, this.zones := world, zones;
      ticks := 0;
      proofs := map[];
      ks := new Store();
    }

    method Now() returns (t: int)
      modifies this`ticks
      ensures t == clock(old(ticks)) && ticks == old(ticks) + 1
    {
      t := clock(ticks);
      ticks := ticks + 1;
    }

    /** SetAnchor: one more anchor; every chain accepted so far stays accepted. */
    method SetAnchor(owner: Name, id: nat)
      requires Valid()
      modifies this`ticks, ks
      ensures Valid()
      ensures ks.Anchors() == old(ks.Anchors()) + if owner == ROOT then [DsRec(owner, MAX_TTL, id)] else []
      ensures forall n :: ks.Held(n) == old(ks.Held(n))
      ensures owner == ROOT && (forall d :: d in old(ks.Anchors()) ==> d.ttl == MAX_TTL) ==>
                && ROOT in ks.store && ks.store[ROOT].ds.Some?
                && ks.store[ROOT].ds.value.expiresAt == clock(old(ticks)) + MAX_TTL * SECOND
    {
      var now := Now();
      ghost var before := ks.Anchors();
      ks.AddDS(owner, [DsRec(owner, MAX_TTL, id)], now);
      forall n | ks.Held(n).Some? ensures Backed(crypto, ks.Anchors(), n, ks.Held(n).value, proofs[n]) {
        LinkedMonotone(crypto, before, ks.Anchors(), proofs[n]);
      }
    }

    /** lookupDNSKEY */
    method LookupDNSKEY(name: Name) returns (err: Option<Error>, zsk: seq<DnsKey>, ksk: seq<DnsKey>, sigs: seq<Sig>, ghost msg: Msg)
      modifies this`ticks
      ensures err.Some? ==> err.value.LookupFailed?
      ensures var r := upstream(old(ticks), name, TYPE_DNSKEY);
              && (err.None? <==> r.Replied? && r.msg.rcode == RCODE_SUCCESS) && (err.None? ==> msg == r.msg)
      ensures err.None? ==> zsk == WithFlags(KeysIn(msg.answer), ZSK_FLAGS) && ksk == WithFlags(KeysIn(msg.answer), KSK_FLAGS)
      ensures err.None? ==> forall s :: s in sigs <==> SigRR(s) in msg.answer
    {
      hide WithFlags, KeysIn;
      var reply := upstream(ticks, name, TYPE_DNSKEY);
      ticks := ticks + 1;
      zsk, ksk, sigs, msg := [], [], [], Msg([], 0, [], []);
      if reply.QueryFailed? {
        return Some(LookupFailed(reply.code)), [], [], [], msg;
      }
      msg := reply.msg;
      if reply.msg.rcode != RCODE_SUCCESS {
        return Some(LookupFailed(reply.msg.rcode)), [], [], [], msg;
      }
      err := None;
      var a := reply.msg.answer;
      NoKeys();
      assert a[..0] == [];
      for i := 0 to |a|
        invariant zsk == WithFlags(KeysIn(a[..i]), ZSK_FLAGS) && ksk == WithFlags(KeysIn(a[..i]), KSK_FLAGS)
        invariant forall s :: s in sigs <==> SigRR(s) in a[..i]
      {
        assert a[..i + 1] == a[..i] + [a[i]];
        KeysSnoc(a[..i], a[i]);
        if a[i].KeyRR? {
          if a[i].key.flags == KSK_FLAGS {
            ksk := ksk + [a[i].key];
          } else if a[i].key.flags == ZSK_FLAGS {
            zsk := zsk + [a[i].key];
          }
        } else if a[i].SigRR? {
          sigs := sigs + [a[i].sig];
        }
      }
      assert a[..|a|] == a;
    }

    /** lookupDS: an answer with an error code counts as one without DS records. */
    method LookupDS(name: Name) returns (err: Option<Error>, ds: seq<DsRec>, sigs: seq<Sig>, msg: Msg)
      modifies this`ticks
      ensures err.Some? ==> err.value.LookupFailed?
      ensures var r := upstream(old(ticks), name, TYPE_DS); (err.None? <==> r.Replied?) && (err.None? ==> msg == r.msg)
      ensures err.None? ==> ds == if msg.rcode == RCODE_SUCCESS then DsIn(msg.answer) else []
      ensures err.None? ==> forall s :: s in sigs <==>
                msg.rcode == RCODE_SUCCESS && SigRR(s) in msg.answer && s.covered == TYPE_DS
    {
      var reply := upstream(ticks, name, TYPE_DS);
      ticks := ticks + 1;
      ds, sigs, msg := [], [], Msg([], 0, [], []);
      if reply.QueryFailed? {
        return Some(LookupFailed(reply.code)), [], [], msg;
      }
      err, msg := None, reply.msg;
      if msg.rcode == RCODE_SUCCESS {
        var a := msg.answer;
        for i := 0 to |a|
          invariant ds == DsIn(a[..i])
          invariant forall s :: s in sigs <==> SigRR(s) in a[..i] && s.covered == TYPE_DS
        {
          assert a[..i + 1][..i] == a[..i];
          if a[i].DsRR? {
            ds := ds + [a[i].ds];
          } else if a[i].SigRR? && a[i].sig.covered == TYPE_DS {
            sigs := sigs + [a[i].sig];
          }
        }
        assert a[..|a|] == a;
      }
    }

    /** The DS records a zone's keys are checked against, authenticated by the anchor or by the parent. */
    method AuthenticDS(zone: Name)
      returns (err: Option<Error>, ds: seq<DsRec>, ghost parent: Option<Chain>, ghost dsSig: Sig, ghost dsAt: int, ghost denial: Option<Denial>)
      requires Valid()
      modifies this, ks
      ensures Valid() && ks.Anchors() == old(ks.Anchors())
      ensures err.None? && zone == ROOT ==> ds != [] && forall d :: d in ds ==> d in ks.Anchors()
      ensures err.None? && zone != ROOT ==>
                && parent.Some? && parent.value.Of() == zone[..|zone| - 1] && Linked(crypto, ks.Anchors(), parent.value)
                && ds != [] && Verified(crypto, dsSig, parent.value.zsk, DsRRs(ds), dsAt)
      ensures err.Some? && err.value.InsecureDelegation? ==>
                Backs(crypto, ks.Anchors(), denial, zone)
      ensures old(Honest()) ==> Honest() && (AllCuts(zones, zone) ==> err.None? && ds == world(zone).ds)
      ensures zone != ROOT && old(Gap(zone[..|zone| - 1])) ==> err.Some?
      ensures zone != ROOT && old(OwnPath(zone)) && err.None? ==> OwnStep(zone, ds, parent.value)
      ensures zone != ROOT && old(ForeignPath(zone)) && err.None? ==> !OwnStep(zone, ds, parent.value)
      decreases |zone|, 0
    {
      hide Linked, Verified, AlwaysVerified, HonestZone, DsRRs, DsIn, AllCuts, Gap, Proven, OwnPath, ForeignPath, OwnDs, OwnUpstream;
      ghost var noSig := Sig([], 0, [], 0, 0, 0);
      if Honest() && AllCuts(zones, zone) && zone != ROOT {
        HonestDsReply(zone, ticks);
      }
      parent, dsSig, dsAt, denial := None, noSig, 0, None;
      if zone == ROOT {
        var now := Now();
        ds := ks.GetDS(ROOT, now);
        if |ds| == 0 {
          return Some(NoTrustAnchor), [], None, noSig, 0, None;
        }
        return None, ds, None, noSig, 0, None;
      }
      PathAbove(zone);
      ghost var reply := upstream(ticks, zone, TYPE_DS);
      assert OwnAt(zone) ==> OwnReply(reply, zone);
      assert ForeignAt(zone) ==> !OwnReply(reply, zone);
      var sigs, msg;
      err, ds, sigs, msg := LookupDS(zone);
      if err.Some? {
        return err, [], None, noSig, 0, None;
      }
      var above := zone[..|zone| - 1];
      var r, chain, d := BuildChainOfTrust(above);
      if r.Failed? {
        return Some(r.err), [], None, noSig, 0, d;
      }
      parent := chain;
      err, dsSig, dsAt, denial := CheckDS(zone, ds, sigs, msg, r.zsk, chain.value);
    }

    /** A DS set of the zone's own below a chain of such sets. */
    ghost predicate OwnStep(zone: Name, ds: seq<DsRec>, parent: Chain)
    {
      (forall d :: d in ds ==> d.owner == zone) && OwnDs(parent)
    }

    /** A DS set under the parent's keys: signed, or authentically denied. */
    method CheckDS(zone: Name, ds: seq<DsRec>, sigs: seq<Sig>, msg: Msg, zsk: seq<DnsKey>, ghost parent: Chain)
      returns (err: Option<Error>, ghost dsSig: Sig, ghost dsAt: int, ghost denial: Option<Denial>)
      requires zone != ROOT && parent.Of() == zone[..|zone| - 1] && parent.zsk == zsk && Linked(crypto, ks.Anchors(), parent)
      modifies this`ticks
      ensures err.None? ==> ds != [] && Verified(crypto, dsSig, zsk, DsRRs(ds), dsAt)
      ensures err.Some? && err.value.InsecureDelegation? ==> ds == [] && Backs(crypto, ks.Anchors(), denial, zone)
      ensures ds != [] && (exists s :: s in sigs && AlwaysVerified(crypto, clock, s, zsk, DsRRs(ds))) ==> err.None?
    {
      hide Linked, Verified, AlwaysVerified, DsRRs;
      ghost var noSig := Sig([], 0, [], 0, 0, 0);
      err, dsSig, dsAt, denial := None, noSig, 0, None;
      if |ds| == 0 {
        var now := Now();
        ghost var shown;
        err, shown := VerifyDSDenial(crypto, msg, zone, zsk, now);
        if err.Some? {
          return err, noSig, 0, None;
        }
        denial := Some(Denial(zone, parent, shown.value.rrset, shown.value.record, shown.value.sig, now));
        return Some(InsecureDelegation), noSig, 0, denial;
      }
      if |sigs| == 0 {
        return Some(NoSignature), noSig, 0, None;
      }
      var signed, at := FirstVerified(sigs, zsk, DsRRs(ds));
      if signed.None? {
        return Some(SignatureInvalid), noSig, 0, None;
      }
      dsSig, dsAt := signed.value, at;
    }

    /** The first signature that verifies, each judged at its own reading of the clock. */
    method FirstVerified(sigs: seq<Sig>, keys: seq<DnsKey>, rrset: seq<RR>) returns (signed: Option<Sig>, at: int)
      modifies this`ticks
      ensures signed.Some? ==> signed.value in sigs && Verified(crypto, signed.value, keys, rrset, at)
      ensures signed.None? ==> forall i :: 0 <= i < |sigs| ==> !Verified(crypto, sigs[i], keys, rrset, clock(old(ticks) + i))
      ensures (exists s :: s in sigs && AlwaysVerified(crypto, clock, s, keys, rrset)) ==> signed.Some?
    {
      signed, at := None, 0;
      var i := 0;
      while i < |sigs|
        invariant 0 <= i <= |sigs| && ticks == old(ticks) + i
        invariant forall j :: 0 <= j < i ==> !Verified(crypto, sigs[j], keys, rrset, clock(old(ticks) + j))
      {
        at := Now();
        var err := VerifyRRSIG(crypto, sigs[i], keys, rrset, at);
        if err.None? {
          return Some(sigs[i]), at;
        }
        i := i + 1;
      }
    }

    /**
     * buildChainOfTrust: keys for a zone, from the cache or freshly validated.
     * Whatever it returns is backed by a chain of accepted steps from the root
     * anchor; an insecure verdict is backed by an authenticated denial.
     */
    method BuildChainOfTrust(zone: Name) returns (r: ChainResult, ghost chain: Option<Chain>, ghost denial: Option<Denial>)
      requires Valid()
      modifies this, ks
      ensures Valid() && ks.Anchors() == old(ks.Anchors())
      ensures r.Keys? ==> chain.Some? && Linked(crypto, ks.Anchors(), chain.value)
                          && chain.value.Of() == zone && chain.value.zsk == r.zsk && chain.value.ksk == r.ksk
      ensures r.Failed? && r.err.InsecureDelegation? ==>
                Backs(crypto, ks.Anchors(), denial, zone)
      ensures old(Honest()) ==> Honest() && (AllCuts(zones, zone) ==> r == Keys(world(zone).zsk, world(zone).ksk))
      ensures old(Gap(zone)) ==> r.Failed?
      ensures old(Honest() && OnlyZones(zone)) ==> (r.Keys? <==> AllCuts(zones, zone))
      ensures OwnUpstream() && r.Keys? ==> OwnDs(chain.value)
      ensures old(OwnPath(zone)) && r.Keys? ==> OwnDs(chain.value)
      ensures old(ForeignPath(zone)) && r.Keys? ==> !OwnDs(chain.value)
      decreases |zone|, 1
    {
      hide Linked, Verified, KeysAccepted, WithFlags, Proven, KeysIn, SelfSigned, HonestZone, AllCuts, GapAt, OnlyZones,
           OwnPath, ForeignPath, OwnUpstream, OwnDs;
      chain, denial := None, None;
      Foresight(zone, ticks + 1);
      OwnForesight(zone);
      var now := Now();
      var zsk, ksk := ks.GetDNSKEY(zone, now);
      if |zsk| > 0 || |ksk| > 0 {
        return Keys(zsk, ksk), Some(proofs[zone]), None;
      }
      var err, sigs;
      ghost var msg;
      err, zsk, ksk, sigs, msg := LookupDNSKEY(zone);
      if err.Some? {
        return Failed(err.value), None, None;
      }
      if |ksk| == 0 {
        return Failed(NoKey), None, None;
      }
      var ds;
      ghost var parent, dsSig, dsAt;
      err, ds, parent, dsSig, dsAt, denial := AuthenticDS(zone);
      if err.Some? {
        return Failed(err.value), None, denial;
      }
      r, chain := AcceptKeys(zone, zsk, ksk, sigs, ds, parent, dsSig, dsAt);
    }

    /** A zone's keys and a signature in its own name over them by a key that one of the DS records vouches for. */
    ghost predicate SelfSigned(zone: Name, zsk: seq<DnsKey>, ksk: seq<DnsKey>, ds: seq<DsRec>, s: Sig)
    {
      && s.signer == zone && s.covered == TYPE_DNSKEY
      && AlwaysVerified(crypto, clock, s, FilterKeysByDS(crypto, ksk, ds), KeyRRs(zsk) + KeyRRs(ksk))
    }

    lemma OwnForesight(zone: Name)
      ensures OwnPath(zone) && ks.Held(zone).Some? ==> zone in proofs && OwnDs(proofs[zone])
      ensures ForeignPath(zone) ==> zone != ROOT && Uncached(zone)
      ensures Valid() && OwnUpstream() ==> OwnPath(zone)
    {
      hide OwnAt, ForeignAt, OwnDs;
      assert zone[..|zone|] == zone;
      if zone != ROOT {
        PathAbove(zone);
      }
      if Valid() && OwnUpstream() {
        OwnUpstreamPath(zone);
      }
    }

    /** What the state and the next reply about keys decide beforehand. */
    lemma Foresight(zone: Name, t: nat)
      ensures
        var r, d := upstream(t, zone, TYPE_DNSKEY), world(zone);
        && (AllCuts(zones, zone) ==> zone in zones)
        && (Honest() && zone in zones ==>
              && r.Replied? && r.msg.rcode == RCODE_SUCCESS && d.ksk != []
              && WithFlags(KeysIn(r.msg.answer), ZSK_FLAGS) == d.zsk && WithFlags(KeysIn(r.msg.answer), KSK_FLAGS) == d.ksk
              && exists s :: SigRR(s) in r.msg.answer && SelfSigned(zone, d.zsk, d.ksk, d.ds, s))
        && (Gap(zone) ==> Uncached(zone) && (!HasKsk(r) || (zone != ROOT && Gap(zone[..|zone| - 1]))))
        && (OnlyZones(zone) && !AllCuts(zones, zone) ==> Gap(zone))
    {
      hide WithFlags, KeysIn, SelfSigned, Honest, HasKsk;
      assert zone[..|zone|] == zone;
      if Honest() && zone in zones {
        HonestKeyReply(zone, t);
      }
      if k: nat :| GapAt(zone, k) {
        if k < |zone| {
          GapAbove(zone, k);
        }
      }
      if OnlyZones(zone) && !AllCuts(zones, zone) {
        var k :| 0 <= k <= |zone| && zone[..k] !in zones;
        assert GapAt(zone, k);
      }
    }

    lemma HonestKeyReply(zone: Name, t: nat)
      requires Honest() && zone in zones
      ensures
        var r, d := upstream(t, zone, TYPE_DNSKEY), world(zone);
        && r.Replied? && r.msg.rcode == RCODE_SUCCESS && d.ksk != []
        && WithFlags(KeysIn(r.msg.answer), ZSK_FLAGS) == d.zsk && WithFlags(KeysIn(r.msg.answer), KSK_FLAGS) == d.ksk
        && exists s :: SigRR(s) in r.msg.answer && SelfSigned(zone, d.zsk, d.ksk, d.ds, s)
    {
      hide Verified, AlwaysVerified;
      assert HonestKeys(crypto, clock, world, zone, upstream(t, zone, TYPE_DNSKEY));
      var s :| SigRR(s) in upstream(t, zone, TYPE_DNSKEY).msg.answer && s.signer == zone && s.covered == TYPE_DNSKEY
               && AlwaysVerified(crypto, clock, s, FilterKeysByDS(crypto, world(zone).ksk, world(zone).ds),
                                 KeyRRs(world(zone).zsk) + KeyRRs(world(zone).ksk));
      assert SelfSigned(zone, world(zone).zsk, world(zone).ksk, world(zone).ds, s);
    }

    lemma HonestDsReply(zone: Name, t: nat)
      requires Honest() && AllCuts(zones, zone) && zone != ROOT
      ensures zone in zones && AllCuts(zones, zone[..|zone| - 1])
      ensures HonestDs(crypto, clock, world, zone, upstream(t, zone, TYPE_DS))
    {
      hide HonestDs, HonestKeys;
      CutsAbove(zones, zone, |zone| - 1);
      assert zone[..|zone|] == zone;
      assert HonestZone(crypto, upstream, clock, world, zones, zone);
    }

    /** The last part of buildChainOfTrust: the keys against their DS records and their own signature, then the cache. */
    method AcceptKeys(zone: Name, zsk: seq<DnsKey>, ksk: seq<DnsKey>, sigs: seq<Sig>, ds: seq<DsRec>,
                      ghost parent: Option<Chain>, ghost dsSig: Sig, ghost dsAt: int)
      returns (r: ChainResult, ghost chain: Option<Chain>)
      requires Valid()
      requires forall k :: k in zsk ==> k.flags == ZSK_FLAGS
      requires forall k :: k in ksk ==> k.flags == KSK_FLAGS
      requires zone == ROOT ==> forall d :: d in ds ==> d in ks.Anchors()
      requires zone != ROOT ==>
                 && parent.Some? && parent.value.Of() == zone[..|zone| - 1] && Linked(crypto, ks.Anchors(), parent.value)
                 && ds != [] && Verified(crypto, dsSig, parent.value.zsk, DsRRs(ds), dsAt)
                 && (OwnUpstream() ==> OwnStep(zone, ds, parent.value))
      modifies this, ks
      ensures Valid() && ks.Anchors() == old(ks.Anchors())
      ensures r.Keys? ==> chain.Some? && Linked(crypto, ks.Anchors(), chain.value)
                          && chain.value.Of() == zone && chain.value.zsk == r.zsk && chain.value.ksk == r.ksk
      ensures r.Failed? ==> !r.err.InsecureDelegation?
      ensures r.Failed? ==> forall n :: ks.Held(n) == old(ks.Held(n))
      ensures r.Keys? ==> r == Keys(zsk, ksk)
      ensures r.Keys? ==> (OwnDs(chain.value) <==> zone == ROOT || OwnStep(zone, ds, parent.value))
      ensures (exists s :: s in sigs && SelfSigned(zone, zsk, ksk, ds, s)) ==> r.Keys?
      ensures old(Honest()) && (zone in zones ==> zsk == world(zone).zsk && ksk == world(zone).ksk) ==> Honest()
    {
      hide Linked, Verified, AlwaysVerified, KeysAccepted, WithFlags, Proven, KeyRRs, DsRRs, FilterKeysByDS, HonestZone, OwnUpstream;
      chain := None;
      var trusted := FilterKeysByDS(crypto, ksk, ds);
      var own := CoveringKeys(sigs, zone);
      SelfSignedFound(zone, zsk, ksk, ds, sigs, own, trusted);
      if |trusted| == 0 {
        return Failed(DSMismatch), None;
      }
      if |own| == 0 {
        return Failed(NoSignature), None;
      }
      var signed, at := FirstVerified(own, trusted, KeyRRs(zsk) + KeyRRs(ksk));
      if signed.None? {
        return Failed(SignatureInvalid), None;
      }
      ghost var ch := if zone == ROOT then Root(zsk, ksk, ds, signed.value, at)
                      else Delegated(parent.value, zone, zsk, ksk, ds, dsSig, dsAt, signed.value, at);
      NewLink(crypto, ks.Anchors(), ch);
      Remember(zone, zsk, ksk, ch);
      return Keys(zsk, ksk), Some(ch);
    }

    lemma SelfSignedFound(zone: Name, zsk: seq<DnsKey>, ksk: seq<DnsKey>, ds: seq<DsRec>,
                          sigs: seq<Sig>, own: seq<Sig>, trusted: seq<DnsKey>)
      requires trusted == FilterKeysByDS(crypto, ksk, ds)
      requires forall s :: s in own <==> s in sigs && s.signer == zone && s.covered == TYPE_DNSKEY
      ensures (exists s :: s in sigs && SelfSigned(zone, zsk, ksk, ds, s)) ==>
                && trusted != [] && own != []
                && exists s :: s in own && AlwaysVerified(crypto, clock, s, trusted, KeyRRs(zsk) + KeyRRs(ksk))
    {
      hide Verified, AlwaysVerified, FilterKeysByDS, KeyRRs;
      if s :| s in sigs && SelfSigned(zone, zsk, ksk, ds, s) {
        VerifiedHasKey(crypto, clock, s, trusted, KeyRRs(zsk) + KeyRRs(ksk));
        assert s in own;
      }
    }

    /** proveNoDS: whether a zone provably has no DS; the proof may lie further up. */
    method ProveNoDS(zone: Name) returns (err: Option<Error>, insecure: bool, ghost denial: Option<Denial>)
      requires Valid() && zone != ROOT
      modifies this, ks
      ensures Valid() && ks.Anchors() == old(ks.Anchors())
      ensures err.None? && insecure ==> Backs(crypto, ks.Anchors(), denial, zone)
      ensures err.Some? ==> !err.value.InsecureDelegation?
      ensures old(Honest()) ==> Honest() && (AllCuts(zones, zone) ==> err.None? && !insecure)
    {
      hide Linked, Verified, AlwaysVerified, Backed, HonestZone, AllCuts, OwnUpstream, OwnDs;
      denial := None;
      if Honest() && AllCuts(zones, zone) {
        HonestDsReply(zone, ticks);
      }
      var ds, sigs, msg;
      err, ds, sigs, msg := LookupDS(zone);
      if err.Some? {
        return err, false, None;
      }
      if |ds| > 0 {
        return None, false, None;
      }
      var r, chain, d := BuildChainOfTrust(zone[..|zone| - 1]);
      if r.Failed? {
        if r.err.InsecureDelegation? {
          return None, true, d;
        }
        return Some(r.err), false, None;
      }
      var now := Now();
      ghost var shown;
      err, shown := VerifyDSDenial(crypto, msg, zone, r.zsk, now);
      if err.Some? {
        return err, false, None;
      }
      denial := Some(Denial(zone, chain.value, shown.value.rrset, shown.value.record, shown.value.sig, now));
      return None, true, denial;
    }

    /** checkInsecureDelegation: walks the cuts from the top down to the name. */
    method CheckInsecureDelegation(name: Name) returns (err: Option<Error>, ghost denial: Option<Denial>)
      requires Valid()
      modifies this, ks
      ensures Valid() && ks.Anchors() == old(ks.Anchors())
      ensures err.Some? && err.value.InsecureDelegation? ==> Backs(crypto, ks.Anchors(), denial, name)
      ensures old(Honest()) ==> Honest() && (AllCuts(zones, name) ==> err.None?)
    {
      hide Proven, Backed, Honest, AllCuts, OwnUpstream, OwnDs;
      denial := None;
      var k := 1;
      while k <= |name|
        invariant 1 <= k <= |name| + 1
        invariant Valid() && ks.Anchors() == old(ks.Anchors())
        invariant old(Honest()) ==> Honest()
      {
        if AllCuts(zones, name) {
          CutsAbove(zones, name, k);
        }
        var e, insecure, d := ProveNoDS(name[..k]);
        if e.Some? {
          return e, None;
        }
        if insecure {
          return Some(InsecureDelegation), d;
        }
        k := k + 1;
      }
      return None, None;
    }

    /** A signature by a zone of the honest world, at or above a name, that holds whenever it is looked at. */
    ghost predicate HonestSig(rrset: seq<RR>, name: Name, s: Sig)
    {
      AllCuts(zones, s.signer) && AtOrUnder(name, s.signer) && AlwaysVerified(crypto, clock, s, world(s.signer).zsk, rrset)
    }

    ghost predicate HonestlySigned(rrset: seq<RR>, sigs: seq<Sig>, name: Name)
    {
      exists i :: 0 <= i < |sigs| && HonestSig(rrset, name, sigs[i])
    }

    /** validateRRset: accepted as soon as one signature in bailiwick verifies under a chain to its signer. */
    method ValidateRRset(rrset: seq<RR>, sigs: seq<Sig>)
      returns (err: Option<Error>, ghost acceptance: Option<Acceptance>, ghost denial: Option<Denial>)
      requires Valid() && rrset != []
      modifies this, ks
      ensures Valid() && ks.Anchors() == old(ks.Anchors())
      ensures err.None? && sigs != [] ==>
                acceptance.Some? && acceptance.value.sig in sigs
                && AcceptedAt(crypto, ks.Anchors(), rrset, rrset[0].Owner(), acceptance.value)
                && (OwnUpstream() ==> OwnDs(acceptance.value.chain))
      ensures err.Some? && err.value.InsecureDelegation? ==> Backs(crypto, ks.Anchors(), denial, rrset[0].Owner())
      ensures old(Honest()) ==> Honest() && (HonestlySigned(rrset, sigs, rrset[0].Owner()) ==> err.None?)
    {
      hide Linked, Verified, Backed, Proven, Honest, OwnUpstream, OwnDs;
      var owner := rrset[0].Owner();
      err, acceptance, denial := None, None, None;
      var i := 0;
      while i < |sigs|
        invariant 0 <= i <= |sigs| && (err.None? ==> i == 0)
        invariant Valid() && ks.Anchors() == old(ks.Anchors())
        invariant err.Some? && err.value.InsecureDelegation? ==> Backs(crypto, ks.Anchors(), denial, owner)
        invariant old(Honest()) ==> Honest() && forall j :: 0 <= j < i ==> !HonestSig(rrset, owner, sigs[j])
      {
        var sig := sigs[i];
        i := i + 1;
        if !AtOrUnder(owner, sig.signer) {
          err := Some(SignerOutOfBailiwick);
          continue;
        }
        var r, chain, d := BuildChainOfTrust(sig.signer);
        if r.Failed? {
          err, denial := Some(r.err), d;
          continue;
        }
        var now := Now();
        var e := VerifyRRSIG(crypto, sig, r.zsk, rrset, now);
        if e.Some? {
          err := e;
          continue;
        }
        return None, Some(Acceptance(chain.value, sig, now)), None;
      }
    }

    /** Every RRset of a section is honestly signed from its own name or above. */
    ghost predicate AllHonestlySigned(section: seq<RR>)
    {
      forall k :: RRsetOf(section, k) != [] ==> HonestlySigned(RRsetOf(section, k), SigsOf(section, k), k.name)
    }

    /**
     * Validate, for a response with an answer section: it is accepted only if
     * every RRset in it verified, and called insecure only with a proven denial.
     */
    method ValidateAnswer(answer: seq<RR>)
      returns (err: Option<Error>, ghost accepted: map<SetKey, Acceptance>, ghost denial: Option<Denial>, ghost culprit: Option<RR>)
      requires Valid()
      modifies this, ks
      ensures Valid() && ks.Anchors() == old(ks.Anchors())
      ensures err.None? ==> forall rr :: rr in answer && !rr.SigRR? ==>
                && KeyOf(rr) in accepted && accepted[KeyOf(rr)].sig in SigsOf(answer, KeyOf(rr))
                && AcceptedAt(crypto, ks.Anchors(), RRsetOf(answer, KeyOf(rr)), rr.Owner(), accepted[KeyOf(rr)])
      ensures err.Some? && err.value.InsecureDelegation? ==>
                culprit.Some? && culprit.value in answer && Backs(crypto, ks.Anchors(), denial, culprit.value.Owner())
      ensures old(Honest()) ==> Honest() && (AllHonestlySigned(answer) ==> err.None?)
      ensures (forall rr :: rr in answer ==> rr.SigRR?) ==> err.None?
      ensures err.None? ==> forall k :: k in accepted <==> RRsetOf(answer, k) != []
      ensures OwnUpstream() ==> forall k :: k in accepted ==> OwnDs(accepted[k].chain)
    {
      hide Linked, Verified, Backed, Proven, AcceptedAt, RRsetOf, SigsOf, Backs, Honest, HonestSig, OwnUpstream, OwnDs;
      accepted, denial, culprit := map[], None, None;
      var rrsets, sigs := GroupRRs(answer);
      var todo := rrsets.Keys;
      while todo != {}
        invariant todo <= rrsets.Keys && accepted.Keys == rrsets.Keys - todo
        invariant Valid() && ks.Anchors() == old(ks.Anchors())
        invariant forall k :: k in rrsets && k !in todo ==>
                    && k in accepted && accepted[k].sig in SigsOf(answer, k)
                    && AcceptedAt(crypto, ks.Anchors(), rrsets[k], k.name, accepted[k])
                    && (OwnUpstream() ==> OwnDs(accepted[k].chain))
        invariant old(Honest()) ==> Honest()
      {
        var key :| key in todo;
        todo := todo - {key};
        var rrset := rrsets[key];
        assert rrset[0] in answer && rrset[0].Owner() == key.name;
        assert SigsFor(sigs, key) == SigsOf(answer, key);
        if |SigsFor(sigs, key)| == 0 {
          var e, d := CheckInsecureDelegation(rrset[0].Owner());
          if e.Some? {
            return e, map[], d, Some(rrset[0]);
          }
          return Some(NoSignature), map[], None, None;
        }
        var e, a, d := ValidateRRset(rrset, SigsFor(sigs, key));
        if e.Some? {
          return e, map[], d, Some(rrset[0]);
        }
        accepted := accepted[key := a.value];
      }
      err := None;
      forall rr | rr in answer && !rr.SigRR?
        ensures KeyOf(rr) in rrsets && rrsets[KeyOf(rr)] == RRsetOf(answer, KeyOf(rr))
      {
        assert rr in RRsetOf(answer, KeyOf(rr));
      }
    }

    /** rrsetSignedFromAncestor */
    method SignedFromAncestor(rrset: seq<RR>, sigs: seq<Sig>, qname: Name) returns (ok: bool, ghost acceptance: Option<Acceptance>)
      requires Valid()
      modifies this, ks
      ensures Valid() && ks.Anchors() == old(ks.Anchors())
      ensures ok ==> acceptance.Some? && AcceptedAt(crypto, ks.Anchors(), rrset, qname, acceptance.value)
      ensures old(Honest()) ==> Honest() && (HonestlySigned(rrset, sigs, qname) ==> ok)
    {
      hide Linked, Verified, Backed, Proven, Honest, OwnUpstream, OwnDs;
      var i := 0;
      while i < |sigs|
        invariant 0 <= i <= |sigs|
        invariant Valid() && ks.Anchors() == old(ks.Anchors())
        invariant old(Honest()) ==> Honest() && forall j :: 0 <= j < i ==> !HonestSig(rrset, qname, sigs[j])
      {
        var sig := sigs[i];
        i := i + 1;
        if !AtOrUnder(qname, sig.signer) {
          continue;
        }
        var r, chain, d := BuildChainOfTrust(sig.signer);
        if r.Failed? {
          continue;
        }
        var now := Now();
        var e := VerifyRRSIG(crypto, sig, r.zsk, rrset, now);
        if e.None? {
          return true, Some(Acceptance(chain.value, sig, now));
        }
      }
      return false, None;
    }

    /** A set of denial records honestly signed from at or above a name. */
    ghost predicate HonestDenial(ns: seq<RR>, qname: Name, k: SetKey)
    {
      IsDenialType(k.rtype) && RRsetOf(ns, k) != [] && HonestlySigned(RRsetOf(ns, k), SigsOf(ns, k), qname)
    }

    ghost predicate Collected(ns: seq<RR>, k: SetKey, nsecs: seq<Nsec.NSEC>, nsec3s: seq<Nsec3.NSEC3>)
    {
      && (forall n :: NsecRR(n) in RRsetOf(ns, k) ==> n in nsecs)
      && (forall o, n :: Nsec3RR(o, n) in RRsetOf(ns, k) ==> n in nsec3s)
    }

    /** collectVerifiedDenialRecords: only records of RRsets authenticated from at or above the name. */
    method CollectVerified(ns: seq<RR>, qname: Name) returns (nsecs: seq<Nsec.NSEC>, nsec3s: seq<Nsec3.NSEC3>)
      requires Valid()
      modifies this, ks
      ensures Valid() && ks.Anchors() == old(ks.Anchors())
      ensures AllAuthentic(crypto, ks.Anchors(), ns, qname, nsecs, nsec3s)
      ensures old(Honest()) ==> Honest() && forall k: SetKey :: HonestDenial(ns, qname, k) ==> Collected(ns, k, nsecs, nsec3s)
    {
      hide Linked, Verified, Backed, AcceptedAt, RRsetOf, SigsOf, Honest, HonestSig, OwnUpstream, OwnDs;
      nsecs, nsec3s := [], [];
      var rrsets, sigs := GroupRRs(ns);
      var todo := rrsets.Keys;
      while todo != {}
        invariant todo <= rrsets.Keys
        invariant Valid() && ks.Anchors() == old(ks.Anchors())
        invariant AllAuthentic(crypto, ks.Anchors(), ns, qname, nsecs, nsec3s)
        invariant old(Honest()) ==>
                    Honest() && forall k :: k in rrsets && k !in todo && HonestDenial(ns, qname, k) ==> Collected(ns, k, nsecs, nsec3s)
      {
        var key :| key in todo;
        todo := todo - {key};
        if IsDenialType(key.rtype) {
          var ok, a := SignedFromAncestor(rrsets[key], SigsFor(sigs, key), qname);
          if ok {
            var more, more3 := Denials(rrsets[key]), Denials3(rrsets[key]);
            forall rr | rr in rrsets[key] ensures Authentic(crypto, ks.Anchors(), ns, qname, rr) {
              assert rrsets[key] == RRsetOf(ns, key);
            }
            nsecs, nsec3s := nsecs + more, nsec3s + more3;
          }
        }
      }
    }

    /** A record of a set of denial records honestly signed from at or above the name. */
    ghost predicate Vouched(ns: seq<RR>, qname: Name, rr: RR)
    {
      exists k :: HonestDenial(ns, qname, k) && rr in RRsetOf(ns, k)
    }

    /** Some NSEC records that are honestly signed prove the denial, and all the response carries come from one zone's chain. */
    ghost predicate HonestNsec(m: Msg, z: Nsec.Zone, nsecs: seq<Nsec.NSEC>)
      requires m.question != []
    {
      && Nsec.ValidZone(z) && AtOrUnder(m.question[0].name, z.owners[0]) && Nsec.AllFromChain(z, Denials(m.authority))
      && (forall n :: n in nsecs ==> Vouched(m.authority, m.question[0].name, NsecRR(n)))
      && NsecDenies(nsecs, m.question[0], m.rcode)
    }

    /** And so for NSEC3, where all it carries are genuine. */
    ghost predicate HonestNsec3(m: Msg, z: Nsec3.Zone, rs: seq<Nsec3.NSEC3>)
      requires m.question != []
    {
      && Nsec3.ValidZone(z) && Nsec3.Genuine(crypto.nsec3, z, Denials3(m.authority), m.question[0].name)
      && (forall r :: r in rs ==> exists o :: Vouched(m.authority, m.question[0].name, Nsec3RR(o, r)))
      && Nsec3Denies(crypto.nsec3, rs, m.question[0], m.rcode)
    }

    ghost predicate HonestNegative(m: Msg)
    {
      m.question != [] && ((exists z, nsecs :: HonestNsec(m, z, nsecs)) || exists z, rs :: HonestNsec3(m, z, rs))
    }

    /** Records that were collected: all from the section, and with them all that are honestly signed. */
    ghost predicate Gathered(ns: seq<RR>, qname: Name, nsecs: seq<Nsec.NSEC>, nsec3s: seq<Nsec3.NSEC3>)
    {
      && (forall n :: n in nsecs ==> NsecRR(n) in ns) && (forall r :: r in nsec3s ==> r in Denials3(ns))
      && forall k :: HonestDenial(ns, qname, k) ==> Collected(ns, k, nsecs, nsec3s)
    }

    lemma GatheredFrom(anchors: seq<DsRec>, ns: seq<RR>, qname: Name, nsecs: seq<Nsec.NSEC>, nsec3s: seq<Nsec3.NSEC3>)
      requires AllAuthentic(crypto, anchors, ns, qname, nsecs, nsec3s)
      requires forall k :: HonestDenial(ns, qname, k) ==> Collected(ns, k, nsecs, nsec3s)
      ensures Gathered(ns, qname, nsecs, nsec3s)
    {
      hide RRsetOf, AcceptedAt, HonestDenial, Collected, Denials3;
    }

    lemma HonestNsecDenies(m: Msg, z: Nsec.Zone, some: seq<Nsec.NSEC>, nsecs: seq<Nsec.NSEC>, nsec3s: seq<Nsec3.NSEC3>)
      requires m.question != [] && HonestNsec(m, z, some) && Gathered(m.authority, m.question[0].name, nsecs, nsec3s)
      ensures NsecDenies(nsecs, m.question[0], m.rcode)
    {
      hide Nsec.NxProof, Nsec.NoDataProof, Nsec.FromChain, HonestDenial, RRsetOf, Denials;
      forall n | n in some ensures n in nsecs {
        var k :| HonestDenial(m.authority, m.question[0].name, k) && NsecRR(n) in RRsetOf(m.authority, k);
        assert Collected(m.authority, k, nsecs, nsec3s);
      }
      assert some[0] in nsecs;
      Nsec.MoreRecords(z, some, nsecs, m.question[0].name, m.question[0].qtype);
    }

    lemma HonestNsec3Denies(m: Msg, z: Nsec3.Zone, some: seq<Nsec3.NSEC3>, nsecs: seq<Nsec.NSEC>, nsec3s: seq<Nsec3.NSEC3>)
      requires m.question != [] && HonestNsec3(m, z, some) && Gathered(m.authority, m.question[0].name, nsecs, nsec3s)
      ensures Nsec3Denies(crypto.nsec3, nsec3s, m.question[0], m.rcode)
    {
      hide Nsec3.NxProved, Nsec3.NxOptedOut, Nsec3.NoDataProved, Nsec3.Asked, HonestDenial, RRsetOf, Denials3;
      var q := m.question[0].name;
      forall r | r in some ensures r in nsec3s {
        var o :| Vouched(m.authority, q, Nsec3RR(o, r));
        var k :| HonestDenial(m.authority, q, k) && Nsec3RR(o, r) in RRsetOf(m.authority, k);
        assert Collected(m.authority, k, nsecs, nsec3s);
      }
      assert some[0] in nsec3s;
      assert Nsec3.Genuine(crypto.nsec3, z, nsec3s, q);
      Nsec3.MoreRecords(crypto.nsec3, z, some, nsec3s, q, m.question[0].qtype);
    }

    /** Whatever else was collected with them, the records of an honest denial prove it. */
    lemma HonestDenied(m: Msg, nsecs: seq<Nsec.NSEC>, nsec3s: seq<Nsec3.NSEC3>)
      requires m.question != [] && Gathered(m.authority, m.question[0].name, nsecs, nsec3s)
      ensures HonestNegative(m) ==> Denied(crypto, m, nsecs, nsec3s)
    {
      hide HonestNsec, HonestNsec3, NsecDenies, Nsec3Denies, Gathered;
      if z, some :| HonestNsec(m, z, some) {
        HonestNsecDenies(m, z, some, nsecs, nsec3s);
      }
      if z, some :| HonestNsec3(m, z, some) {
        HonestNsec3Denies(m, z, some, nsecs, nsec3s);
      }
    }

    /**
     * validateDenial: a negative response is accepted only on a denial proof
     * made of authenticated records, and called insecure only with a proven
     * denial of a DS at or above the name.
     */
    method ValidateDenial(answer: Msg)
      returns (err: Option<Error>, ghost nsecs: seq<Nsec.NSEC>, ghost nsec3s: seq<Nsec3.NSEC3>, ghost denial: Option<Denial>)
      requires Valid()
      modifies this, ks
      ensures Valid() && ks.Anchors() == old(ks.Anchors())
      ensures answer.question != [] ==> AllAuthentic(crypto, ks.Anchors(), answer.authority, answer.question[0].name, nsecs, nsec3s)
      ensures err.None? <==> Denied(crypto, answer, nsecs, nsec3s)
      ensures err.Some? && err.value.InsecureDelegation? ==>
                answer.question != [] && Backs(crypto, ks.Anchors(), denial, answer.question[0].name)
      ensures old(Honest()) ==> Honest() && (answer.question != [] ==>
                forall k :: HonestDenial(answer.authority, answer.question[0].name, k) ==> Collected(answer.authority, k, nsecs, nsec3s))
      ensures old(Honest()) && HonestNegative(answer) ==> err.None?
    {
      hide Linked, Verified, Backed, Backs, AllAuthentic, NsecDenies, Nsec3Denies, Honest, HonestDenial, Collected, HonestNsec, HonestNsec3, Gathered,
           OwnUpstream, OwnDs;
      nsecs, nsec3s, denial := [], [], None;
      if |answer.question| == 0 {
        return Some(DenialNotProven), [], [], None;
      }
      var q := answer.question[0];
      var ns, ns3 := CollectVerified(answer.authority, q.name);
      nsecs, nsec3s := ns, ns3;
      if old(Honest()) {
        GatheredFrom(ks.Anchors(), answer.authority, q.name, ns, ns3);
        HonestDenied(answer, ns, ns3);
      }
      var ok := NsecProvesDenial(ns, q, answer.rcode);
      if ok {
        return None, ns, ns3, None;
      }
      ok := Nsec3ProvesDenial(crypto.nsec3, ns3, q, answer.rcode);
      if ok {
        return None, ns, ns3, None;
      }
      var e, d := CheckInsecureDelegation(q.name);
      if e.Some? {
        return e, ns, ns3, d;
      }
      return Some(DenialNotProven), ns, ns3, None;
    }

    /** Validate */
    method Validate(answer: Msg) returns (err: Option<Error>, ghost why: Verdict)
      requires Valid()
      modifies this, ks
      ensures Valid() && ks.Anchors() == old(ks.Anchors())
      ensures err.None? ==> Justified(crypto, ks.Anchors(), answer, why)
      ensures err.Some? && err.value.InsecureDelegation? ==>
                exists name :: NameIn(answer, name) && Backs(crypto, ks.Anchors(), why.denial, name)
      ensures answer.answer == [] ==> (err.None? <==> Justified(crypto, ks.Anchors(), answer, why))
      ensures old(Honest()) ==> Honest() && (answer.answer != [] && AllHonestlySigned(answer.answer) ==> err.None?)
      ensures old(Honest()) && answer.answer == [] && HonestNegative(answer) ==> err.None?
      ensures answer.answer != [] && (forall rr :: rr in answer.answer ==> rr.SigRR?) ==> err.None?
      ensures answer.answer != [] && err.None? ==>
                && (forall k :: k in why.accepted <==> RRsetOf(answer.answer, k) != [])
                && (why.accepted != map[] <==> exists rr :: rr in answer.answer && !rr.SigRR?)
      ensures OwnUpstream() ==> forall k :: k in why.accepted ==> OwnDs(why.accepted[k].chain)
    {
      hide Linked, Verified, Backed, Backs, AllAuthentic, NsecDenies, Nsec3Denies, AcceptedAt, RRsetOf, SigsOf,
           Honest, HonestlySigned, HonestDenial, Collected, HonestNegative, OwnUpstream, OwnDs;
      if |answer.answer| == 0 {
        var e, ns, ns3, d := ValidateDenial(answer);
        why := Verdict(map[], ns, ns3, d);
        if e.Some? && e.value.InsecureDelegation? {
          assert NameIn(answer, answer.question[0].name);
        }
        return e, why;
      }
      var e, accepted, d, culprit := ValidateAnswer(answer.answer);
      why := Verdict(accepted, [], [], d);
      if e.Some? && e.value.InsecureDelegation? {
        assert NameIn(answer, culprit.value.Owner());
      }
      AnyRRset(answer.answer, accepted);
      return e, why;
    }

    /** An answer of one bare signature, whatever it says, is accepted with nothing verified. */
    method AcceptsBareSignature(sig: Sig) returns (err: Option<Error>, ghost why: Verdict)
      requires Valid()
      modifies this, ks
      ensures Valid() && err.None? && why.accepted == map[]
    {
      hide Justified, Backs, Honest, AllHonestlySigned;
      err, why := Validate(Msg([], RCODE_SUCCESS, [SigRR(sig)], []));
    }

    /** Caching validated keys: they come back as the same two sets, and the chain behind them is kept. */
    method Remember(zone: Name, zsk: seq<DnsKey>, ksk: seq<DnsKey>, ghost ch: Chain)
      requires Valid() && Linked(crypto, ks.Anchors(), ch) && ch.Of() == zone && ch.zsk == zsk && ch.ksk == ksk
      requires OwnUpstream() ==> OwnDs(ch)
      requires forall k :: k in zsk ==> k.flags == ZSK_FLAGS
      requires forall k :: k in ksk ==> k.flags == KSK_FLAGS
      modifies this, ks
      ensures Valid() && ks.Anchors() == old(ks.Anchors())
      ensures ks.Held(zone).Some? && ks.Held(zone).value.zsk == zsk && ks.Held(zone).value.ksk == ksk
      ensures forall k :: k in zsk + ksk ==> ks.Held(zone).value.expiresAt <= clock(old(ticks)) + k.ttl * SECOND
      ensures proofs == old(proofs)[zone := ch]
      ensures forall n :: n != zone ==> ks.Held(n) == old(ks.Held(n))
      ensures old(Honest()) && (zone in zones ==> zsk == world(zone).zsk && ksk == world(zone).ksk) ==> Honest()
    {
      hide Linked, WithFlags, HonestZone, OwnUpstream, OwnDs, Backed;
      SplitAgain(zsk, ksk);
      var now := Now();
      ks.AddDNSKEY(zone, zsk + ksk, now);
      BackedBy(crypto, ks.Anchors(), zone, ks.Held(zone).value, ch);
      proofs := proofs[zone := ch];
    }
  }

  /** A section has an RRset exactly if it has a record that is not a signature. */
  lemma AnyRRset<T>(section: seq<RR>, sets: map<SetKey, T>)
    ensures (forall k :: k in sets <==> RRsetOf(section, k) != []) ==>
              (sets != map[] <==> exists rr :: rr in section && !rr.SigRR?)
  {
    hide RRsetOf;
    if forall k :: k in sets <==> RRsetOf(section, k) != [] {
      if k :| k in sets {
        assert RRsetOf(section, k)[0] in RRsetOf(section, k);
      }
      if rr :| rr in section && !rr.SigRR? {
        assert rr in RRsetOf(section, KeyOf(rr));
        assert KeyOf(rr) in sets;
      }
    }
  }

  /** A linked chain reaches the root: every zone above it has a linked chain of its own inside it, down to the anchor. */
  lemma {:induction false} ChainCoversAncestors(c: Crypto, anchors: seq<DsRec>, ch: Chain, k: nat) returns (sub: Chain)
    requires Linked(c, anchors, ch) && k <= |ch.Of()|
    ensures Linked(c, anchors, sub) && sub.Of() == ch.Of()[..k]
    ensures k == 0 ==> sub.Root? && forall d :: d in sub.ds ==> d in anchors
    decreases ch
  {
    hide KeysAccepted, Verified, DsRRs;
    if k == |ch.Of()| {
      sub := ch;
      assert ch.Of()[..k] == ch.Of();
    } else {
      sub := ChainCoversAncestors(c, anchors, ch.parent, k);
      assert ch.parent.Of()[..k] == ch.Of()[..k];
    }
  }

  /** Behind an insecure verdict with an NSEC record of the parent's chain: a delegation without a DS, seen from the parent. */
  lemma InsecureByNsec(c: Crypto, anchors: seq<DsRec>, d: Denial, z: Nsec.Zone)
    requires Proven(c, anchors, d) && d.record.NsecRR?
    requires Nsec.ValidZone(z) && Nsec.FromChain(z, d.record.nsec)
    ensures exists i :: 0 <= i < |z.owners| && z.owners[i] == d.zone
                        && TYPE_NS in z.types[i] && TYPE_DS !in z.types[i] && TYPE_SOA !in z.types[i]
  {
  }

  /** And with an NSEC3 record: such a delegation, or a name that opt-out leaves out of the chain. */
  lemma InsecureByNsec3(c: Crypto, anchors: seq<DsRec>, d: Denial, z: Nsec3.Zone)
    requires Proven(c, anchors, d) && d.record.Nsec3RR?
    requires Nsec3.ValidZone(z) && Nsec3.Genuine(c.nsec3, z, [d.record.nsec3], d.zone)
    ensures if d.zone in z.names then TYPE_NS in z.types[d.zone] && TYPE_DS !in z.types[d.zone] && TYPE_SOA !in z.types[d.zone]
            else d.record.nsec3.optOut
  {
    hide Linked, Verified, Nsec3.Asked;
    Nsec3.AskedAt(d.zone, |d.zone|);
    assert d.record.nsec3 in [d.record.nsec3];
  }

  /** An accepted NXDOMAIN whose NSEC records come from one zone's chain: the zone has neither the name nor its wildcard. */
  lemma AcceptedNxDomain(c: Crypto, anchors: seq<DsRec>, m: Msg, v: Verdict, z: Nsec.Zone, d: nat)
    requires m.answer == [] && m.rcode == RCODE_NXDOMAIN && Justified(c, anchors, m, v)
    requires NsecDenies(v.nsecs, m.question[0], m.rcode)
    requires Nsec.ValidZone(z) && Nsec.AllFromChain(z, v.nsecs) && AtOrUnder(m.question[0].name, z.owners[0])
    requires Nsec.IsEncloserDepth(z, m.question[0].name, d)
    ensures m.question[0].name !in z.owners && Wildcard(m.question[0].name[..d]) !in z.owners
  {
    Nsec.NxSound(z, v.nsecs, m.question[0].name, d);
  }

  lemma NewLink(c: Crypto, anchors: seq<DsRec>, ch: Chain)
    requires ch.keySig.signer == ch.Of() && ch.keySig.covered == TYPE_DNSKEY
    requires Verified(c, ch.keySig, FilterKeysByDS(c, ch.ksk, ch.ds), KeyRRs(ch.zsk) + KeyRRs(ch.ksk), ch.at)
    requires ch.Root? ==> forall d :: d in ch.ds ==> d in anchors
    requires ch.Delegated? ==>
               && ch.zone != [] && ch.parent.Of() == ch.zone[..|ch.zone| - 1] && Linked(c, anchors, ch.parent)
               && ch.ds != [] && Verified(c, ch.dsSig, ch.parent.zsk, DsRRs(ch.ds), ch.dsAt)
    ensures Linked(c, anchors, ch)
  {
  }

  /** The signatures that cover the zone's DNSKEY set in the zone's own name. */
  function CoveringKeys(sigs: seq<Sig>, zone: Name): (r: seq<Sig>)
    ensures forall s :: s in r <==> s in sigs && s.signer == zone && s.covered == TYPE_DNSKEY
  {
    if sigs == [] then []
    else
      var rest := CoveringKeys(sigs[1..], zone);
      if sigs[0].signer == zone && sigs[0].covered == TYPE_DNSKEY then [sigs[0]] + rest else rest
  }
}
