/**
 * Worlds in which an upstream plays by the rules do exist, and a validator can be
 * set up in one.
 */
module HonestWorld {
  import opened Octets
  import opened CanonicalOrder
  import opened RecordTypes
  import opened DnsRecords
  import opened Keystore
  import opened Validator
  import Nsec
  import Nsec3

  /** The owner that the DS records published about a zone carry. */
  type Owners = Name -> Name

  /** An upstream that publishes keys and DS records at some zones and nowhere else. */
  function SignedAt(zones: set<Name>, owners: Owners): Upstream
  {
    (t: nat, p: Name, rtype: uint16) =>
      if p !in zones then QueryFailed(RCODE_NXDOMAIN)
      else if rtype == TYPE_DNSKEY then
        Replied(Msg([], RCODE_SUCCESS, [KeyRR(ZoneKey(p, ZSK_FLAGS)), KeyRR(ZoneKey(p, KSK_FLAGS)), SigRR(ZoneSig(p, TYPE_DNSKEY))], []))
      else
        Replied(Msg([], RCODE_SUCCESS, [DsRR(DsRec(owners(p), MAX_TTL, 0)), SigRR(ZoneSig(p, TYPE_DS))], []))
  }

  function ZoneKey(p: Name, flags: uint16): DnsKey
  {
    DnsKey(p, MAX_TTL, flags, 8, 1, 0)
  }

  function ZoneSig(p: Name, covered: uint16): Sig
  {
    Sig(p, covered, p, 8, 1, 0)
  }

  function SignedData(owners: Owners): World
  {
    (p: Name) => ZoneData([ZoneKey(p, ZSK_FLAGS)], [ZoneKey(p, KSK_FLAGS)], [DsRec(if p == ROOT then ROOT else owners(p), MAX_TTL, 0)])
  }

  /** Such worlds exist for any zones, labels left out between them or not, and have no keys elsewhere. */
  lemma SignedAtIsHonest(nsec3: Nsec3.Tests, clock: nat -> int, zones: set<Name>, owners: Owners, p: Name)
    ensures p in zones ==> HonestZone(Lenient(nsec3), SignedAt(zones, owners), clock, SignedData(owners), zones, p)
    ensures p !in zones ==> forall t :: !HasKsk(SignedAt(zones, owners)(t, p, TYPE_DNSKEY))
  {
    hide HonestKeys, HonestDs;
    if p in zones {
      forall t ensures HonestKeys(Lenient(nsec3), clock, SignedData(owners), p, SignedAt(zones, owners)(t, p, TYPE_DNSKEY)) {
        SignedKeys(nsec3, clock, zones, owners, p, t);
      }
      forall t | p != ROOT ensures HonestDs(Lenient(nsec3), clock, SignedData(owners), p, SignedAt(zones, owners)(t, p, TYPE_DS)) {
        SignedDs(nsec3, clock, zones, owners, p, t);
      }
    }
  }

  lemma SignedKeys(nsec3: Nsec3.Tests, clock: nat -> int, zones: set<Name>, owners: Owners, p: Name, t: nat)
    requires p in zones
    ensures HonestKeys(Lenient(nsec3), clock, SignedData(owners), p, SignedAt(zones, owners)(t, p, TYPE_DNSKEY))
  {
    hide KeyRRs, AlwaysVerified, KeysIn, WithFlags;
    var c, d := Lenient(nsec3), SignedData(owners)(p);
    PublishedKeys(ZoneKey(p, ZSK_FLAGS), ZoneKey(p, KSK_FLAGS), ZoneSig(p, TYPE_DNSKEY));
    assert d.ksk[0] in d.ksk && d.ds[0] in d.ds && c.digestMatches(d.ksk[0], d.ds[0]);
    LenientVerifies(nsec3, clock, ZoneSig(p, TYPE_DNSKEY), FilterKeysByDS(c, d.ksk, d.ds), d.ksk[0], KeyRRs(d.zsk) + KeyRRs(d.ksk));
    assert SignedAt(zones, owners)(t, p, TYPE_DNSKEY).msg.answer[2] == SigRR(ZoneSig(p, TYPE_DNSKEY));
  }

  lemma SignedDs(nsec3: Nsec3.Tests, clock: nat -> int, zones: set<Name>, owners: Owners, p: Name, t: nat)
    requires p in zones && p != ROOT
    ensures HonestDs(Lenient(nsec3), clock, SignedData(owners), p, SignedAt(zones, owners)(t, p, TYPE_DS))
  {
    hide DsRRs, AlwaysVerified, DsIn;
    var above := SignedData(owners)(p[..|p| - 1]);
    assert above.zsk == [ZoneKey(p[..|p| - 1], ZSK_FLAGS)];
    PublishedDs(DsRec(owners(p), MAX_TTL, 0), ZoneSig(p, TYPE_DS));
    LenientVerifies(nsec3, clock, ZoneSig(p, TYPE_DS), above.zsk, above.zsk[0], DsRRs(SignedData(owners)(p).ds));
    assert SignedAt(zones, owners)(t, p, TYPE_DS).msg.answer[1] == SigRR(ZoneSig(p, TYPE_DS));
  }

  lemma PublishedKeys(z: DnsKey, k: DnsKey, sig: Sig)
    requires z.flags == ZSK_FLAGS && k.flags == KSK_FLAGS
    ensures
      var keys := KeysIn([KeyRR(z), KeyRR(k), SigRR(sig)]);
      WithFlags(keys, ZSK_FLAGS) == [z] && WithFlags(keys, KSK_FLAGS) == [k]
  {
    var a := [KeyRR(z), KeyRR(k), SigRR(sig)];
    assert a[..2] == [KeyRR(z), KeyRR(k)] && [KeyRR(z), KeyRR(k)][..1] == [KeyRR(z)] && [KeyRR(z)][..0] == [];
    assert KeysIn([KeyRR(z)]) == KeysIn([]) + [z] == [z];
    assert KeysIn([KeyRR(z), KeyRR(k)]) == [z] + [k];
    assert KeysIn(a) == [z] + [k];
    WithFlagsConcat([z], [k], ZSK_FLAGS);
    WithFlagsConcat([z], [k], KSK_FLAGS);
    assert [z] + [k] == [z, k];
  }

  lemma PublishedDs(d: DsRec, sig: Sig)
    ensures DsIn([DsRR(d), SigRR(sig)]) == [d]
  {
    var a := [DsRR(d), SigRR(sig)];
    assert a[..1] == [DsRR(d)] && [DsRR(d)][..0] == [];
    assert DsIn([DsRR(d)]) == DsIn([]) + [d] == [d];
  }

  lemma LenientVerifies(nsec3: Nsec3.Tests, clock: nat -> int, sig: Sig, keys: seq<DnsKey>, k: DnsKey, rrset: seq<RR>)
    requires k in keys && k.tag == sig.tag && k.alg == sig.alg
    ensures AlwaysVerified(Lenient(nsec3), clock, sig, keys, rrset)
  {
    forall t ensures Verified(Lenient(nsec3), sig, keys, rrset, clock(t)) {
      assert Lenient(nsec3).verify(sig, k, rrset);
    }
  }

  /** A fresh validator with one anchor, the root's own, honest as long as the upstream is and until the anchor expires. */
  method Configured(crypto: Crypto, upstream: Upstream, clock: nat -> int, id: nat, ghost world: World, ghost zones: set<Name>)
    returns (v: Validator)
    requires forall p :: p in zones ==> HonestZone(crypto, upstream, clock, world, zones, p)
    requires world(ROOT).ds == [DsRec(ROOT, MAX_TTL, id)]
    requires forall t :: clock(t) <= clock(0) + MAX_TTL * SECOND
    ensures fresh(v) && fresh(v.ks) && v.Valid() && v.Honest() && forall p :: v.ks.Held(p).None?
    ensures v.crypto == crypto && v.upstream == upstream && v.clock == clock && v.world == world && v.zones == zones
  {
    hide HonestZone, Linked;
    v := new Validator(crypto, upstream, clock, world, zones);
    v.SetAnchor(ROOT, id);
  }

  /** Such a validator in a world where everything verifies. */
  method InSignedWorld(nsec3: Nsec3.Tests, clock: nat -> int, zones: set<Name>, owners: Owners) returns (v: Validator)
    requires forall t :: clock(t) <= clock(0) + MAX_TTL * SECOND
    ensures fresh(v) && fresh(v.ks) && v.Valid() && v.Honest() && forall p :: v.ks.Held(p).None?
    ensures v.crypto == Lenient(nsec3) && v.upstream == SignedAt(zones, owners) && v.clock == clock
    ensures v.world == SignedData(owners) && v.zones == zones
    ensures forall p, t :: p !in zones ==> !HasKsk(SignedAt(zones, owners)(t, p, TYPE_DNSKEY))
  {
    hide HonestZone, Linked, HasKsk, SignedAt;
    forall p ensures p in zones ==> HonestZone(Lenient(nsec3), SignedAt(zones, owners), clock, SignedData(owners), zones, p)
             ensures p !in zones ==> forall t :: !HasKsk(SignedAt(zones, owners)(t, p, TYPE_DNSKEY)) {
      SignedAtIsHonest(nsec3, clock, zones, owners, p);
    }
    v := Configured(Lenient(nsec3), SignedAt(zones, owners), clock, 0, SignedData(owners), zones);
  }

  /** Every DS record on the way to a zone carries the name it is about. */
  ghost predicate OwnNames(owners: Owners, zone: Name)
  {
    forall k :: 0 < k <= |zone| ==> owners(zone[..k]) == zone[..k]
  }

  /**
   * In such a world keys are found for a zone exactly if every label above it is
   * a signed zone too: a zone delegated across an unsigned label is refused. The
   * chain behind them is made of each zone's own DS records exactly if the
   * records carry the names they were asked for, which nothing looks at.
   */
  method FindKeys(nsec3: Nsec3.Tests, clock: nat -> int, zones: set<Name>, owners: Owners, zone: Name)
    returns (r: ChainResult, ghost chain: Option<Chain>)
    requires forall t :: clock(t) <= clock(0) + MAX_TTL * SECOND
    ensures r.Keys? <==> AllCuts(zones, zone)
    ensures r.Keys? ==> r == Keys(SignedData(owners)(zone).zsk, SignedData(owners)(zone).ksk)
    ensures r.Keys? ==> chain.Some? && (OwnDs(chain.value) <==> OwnNames(owners, zone))
  {
    hide HonestZone, Linked, HasKsk, SignedAt, OwnDs;
    var v := InSignedWorld(nsec3, clock, zones, owners);
    assert v.OnlyZones(zone) by {
      forall k | 0 <= k <= |zone| && zone[..k] !in zones ensures v.GapAt(zone, k) {
      }
    }
    WhoseReplies(v, zones, owners, zone);
    ghost var denial;
    r, chain, denial := v.BuildChainOfTrust(zone);
  }

  lemma WhoseReplies(v: Validator, zones: set<Name>, owners: Owners, zone: Name)
    requires v.upstream == SignedAt(zones, owners) && forall p :: v.ks.Held(p).None?
    ensures AllCuts(zones, zone) ==> if OwnNames(owners, zone) then v.OwnPath(zone) else v.ForeignPath(zone)
  {
    hide SignedAt;
    if AllCuts(zones, zone) {
      forall k, t: nat | 0 < k <= |zone|
        ensures OwnReply(v.upstream(t, zone[..k], TYPE_DS), zone[..k]) <==> owners(zone[..k]) == zone[..k]
      {
        ReplyOwner(zones, owners, zone[..k], t);
      }
      if !OwnNames(owners, zone) {
        var k :| 0 < k <= |zone| && owners(zone[..k]) != zone[..k];
        assert v.ForeignFrom(zone, k);
      }
    }
  }

  lemma ReplyOwner(zones: set<Name>, owners: Owners, p: Name, t: nat)
    requires p in zones
    ensures OwnReply(SignedAt(zones, owners)(t, p, TYPE_DS), p) <==> owners(p) == p
  {
    hide DsIn;
    var d := DsRec(owners(p), MAX_TTL, 0);
    PublishedDs(d, ZoneSig(p, TYPE_DS));
    assert d in [d];
  }

  /** So keys for a. are handed out on the word of a DS record of b. */
  method SiblingKeys(nsec3: Nsec3.Tests, clock: nat -> int) returns (r: ChainResult, ghost chain: Option<Chain>)
    requires forall t :: clock(t) <= clock(0) + MAX_TTL * SECOND
    ensures r.Keys? && chain.Some? && !OwnDs(chain.value)
  {
    var a: Name, b: Name := [[97]], [[98]];
    assert forall k :: 0 <= k <= |a| ==> a[..k] == ROOT || a[..k] == a;
    r, chain := FindKeys(nsec3, clock, {ROOT, a}, p => b, a);
    assert a[..1] == a && a[0] != b[0];
  }

  // ----- responses -----

  /** Denial records, each followed by a signature of the zone's. */
  function SignedNsecs(nsecs: seq<Nsec.NSEC>, signer: Name): (r: seq<RR>)
    ensures forall rr :: rr in r ==> rr.SigRR? || (rr.NsecRR? && rr.nsec in nsecs)
    ensures forall n :: n in nsecs ==> NsecRR(n) in r && SigRR(SetSig(SetKey(n.owner, TYPE_NSEC), signer)) in r
  {
    if nsecs == [] then []
    else [NsecRR(nsecs[0]), SigRR(SetSig(SetKey(nsecs[0].owner, TYPE_NSEC), signer))] + SignedNsecs(nsecs[1..], signer)
  }

  /** A signature over an RRset. */
  function SetSig(k: SetKey, signer: Name): Sig
  {
    Sig(k.name, k.rtype, signer, 8, 1, 0)
  }

  lemma {:induction false} SigFound(section: seq<RR>, s: Sig) returns (i: nat)
    requires SigRR(s) in section
    ensures var sigs := SigsOf(section, SetKey(s.owner, s.covered)); i < |sigs| && sigs[i] == s
  {
    var n := |section| - 1;
    assert section == section[..n] + [section[n]];
    if section[n] == SigRR(s) {
      i := |SigsOf(section[..n], SetKey(s.owner, s.covered))|;
    } else {
      i := SigFound(section[..n], s);
    }
  }

  /** In such a world a zone's signature on an RRset is an honest one for every name at or below the zone. */
  lemma SetIsSigned(v: Validator, nsec3: Nsec3.Tests, owners: Owners, section: seq<RR>, k: SetKey, signer: Name, name: Name)
    requires v.crypto == Lenient(nsec3) && v.world == SignedData(owners)
    requires AllCuts(v.zones, signer) && AtOrUnder(name, signer) && SigRR(SetSig(k, signer)) in section
    ensures v.HonestlySigned(RRsetOf(section, k), SigsOf(section, k), name)
  {
    hide RRsetOf, SigsOf, AllCuts, AlwaysVerified;
    var i := SigFound(section, SetSig(k, signer));
    var key := ZoneKey(signer, ZSK_FLAGS);
    assert v.world(signer).zsk == [key];
    LenientVerifies(nsec3, v.clock, SetSig(k, signer), [key], key, RRsetOf(section, k));
    assert v.HonestSig(RRsetOf(section, k), name, SigsOf(section, k)[i]);
  }

  /** A negative response with any records of a signed zone's chain that prove it is accepted. */
  method AcceptsDenial(nsec3: Nsec3.Tests, clock: nat -> int, zones: set<Name>, z: Nsec.Zone,
                       nsecs: seq<Nsec.NSEC>, q: Question, rcode: nat) returns (err: Option<Error>)
    requires forall t :: clock(t) <= clock(0) + MAX_TTL * SECOND
    requires Nsec.ValidZone(z) && AllCuts(zones, z.owners[0]) && AtOrUnder(q.name, z.owners[0])
    requires Nsec.AllFromChain(z, nsecs) && NsecDenies(nsecs, q, rcode)
    ensures err.None?
  {
    hide HonestZone, Linked, HasKsk, SignedAt, NsecDenies, Nsec.FromChain, AllCuts, RRsetOf, SigsOf, OwnDs, Justified;
    var owners: Owners := p => p;
    var v := InSignedWorld(nsec3, clock, zones, owners);
    var signer := z.owners[0];
    var m := Msg([q], rcode, [], SignedNsecs(nsecs, signer));
    forall n | n in nsecs ensures v.Vouched(m.authority, q.name, NsecRR(n)) {
      var k := SetKey(n.owner, TYPE_NSEC);
      assert KeyOf(NsecRR(n)) == k && NsecRR(n) in RRsetOf(m.authority, k);
      SetIsSigned(v, nsec3, owners, m.authority, k, signer, q.name);
    }
    assert v.HonestNsec(m, z, nsecs);
    ghost var why;
    err, why := v.Validate(m);
  }

  /** The same for NSEC3 records, under whatever names their hashes are written as. */
  function SignedNsec3s(rs: seq<Nsec3.NSEC3>, written: nat -> Name, signer: Name): (r: seq<RR>)
    ensures forall rr :: rr in r ==> rr.SigRR? || (rr.Nsec3RR? && rr.nsec3 in rs)
    ensures forall n :: n in rs ==>
              && Nsec3RR(written(n.owner), n) in r
              && SigRR(SetSig(SetKey(written(n.owner), TYPE_NSEC3), signer)) in r
  {
    if rs == [] then []
    else
      var o := written(rs[0].owner);
      [Nsec3RR(o, rs[0]), SigRR(SetSig(SetKey(o, TYPE_NSEC3), signer))] + SignedNsec3s(rs[1..], written, signer)
  }

  /** And so is one with any genuine NSEC3 records that prove it. */
  method AcceptsNsec3Denial(nsec3: Nsec3.Tests, clock: nat -> int, zones: set<Name>, ghost z: Nsec3.Zone, signer: Name,
                            rs: seq<Nsec3.NSEC3>, written: nat -> Name, q: Question, rcode: nat) returns (err: Option<Error>)
    requires forall t :: clock(t) <= clock(0) + MAX_TTL * SECOND
    requires AllCuts(zones, signer) && AtOrUnder(q.name, signer)
    requires Nsec3.ValidZone(z) && Nsec3.Genuine(nsec3, z, rs, q.name) && Nsec3Denies(nsec3, rs, q, rcode)
    ensures err.None?
  {
    hide HonestZone, Linked, HasKsk, SignedAt, Nsec3Denies, Nsec3.Asked, AllCuts, RRsetOf, SigsOf, OwnDs, Justified;
    var owners: Owners := p => p;
    var v := InSignedWorld(nsec3, clock, zones, owners);
    var m := Msg([q], rcode, [], SignedNsec3s(rs, written, signer));
    forall r | r in rs ensures v.Vouched(m.authority, q.name, Nsec3RR(written(r.owner), r)) {
      var rr, k := Nsec3RR(written(r.owner), r), SetKey(written(r.owner), TYPE_NSEC3);
      assert KeyOf(rr) == k && rr in RRsetOf(m.authority, k);
      SetIsSigned(v, nsec3, owners, m.authority, k, signer, q.name);
    }
    assert v.HonestNsec3(m, z, rs);
    ghost var why;
    err, why := v.Validate(m);
  }

  /** An answer with any one honestly signed record is accepted whatever was asked, and holds what was asked only if that is the record. */
  method AcceptsOffTopic(nsec3: Nsec3.Tests, clock: nat -> int, zones: set<Name>, signer: Name, k: SetKey, question: seq<Question>)
    returns (err: Option<Error>, ghost why: Verdict)
    requires forall t :: clock(t) <= clock(0) + MAX_TTL * SECOND
    requires AllCuts(zones, signer) && AtOrUnder(k.name, signer)
    ensures err.None? && why.accepted.Keys == {k}
  {
    hide HonestZone, Linked, HasKsk, SignedAt, AllCuts, RRsetOf, SigsOf, OwnDs, Justified;
    var owners: Owners := p => p;
    var v := InSignedWorld(nsec3, clock, zones, owners);
    var rr := OtherRR(k.name, k.rtype, 0);
    var m := Msg(question, RCODE_SUCCESS, [rr, SigRR(SetSig(k, signer))], []);
    forall j | RRsetOf(m.answer, j) != [] ensures j == k && v.HonestlySigned(RRsetOf(m.answer, j), SigsOf(m.answer, j), j.name) {
      assert RRsetOf(m.answer, j)[0] in RRsetOf(m.answer, j);
      SetIsSigned(v, nsec3, owners, m.answer, k, signer, k.name);
    }
    assert rr in m.answer && KeyOf(rr) == k && rr in RRsetOf(m.answer, k);
    err, why := v.Validate(m);
  }
}
