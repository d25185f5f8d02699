/** The validator's cache of DS anchors and validated DNSKEY sets. */
module Keystore {
  import opened Octets
  import opened CanonicalOrder
  import opened DnsRecords
  import opened RecordTypes

  datatype KeySet = KeySet(expiresAt: int, zsk: seq<DnsKey>, ksk: seq<DnsKey>)
  datatype DsSet = DsSet(expiresAt: int, records: seq<DsRec>)
  datatype Entry = Entry(keys: Option<KeySet>, ds: Option<DsSet>)

  /** The keys with the given flags, in order. */
  function WithFlags(keys: seq<DnsKey>, flags: uint16): (r: seq<DnsKey>)
    ensures forall k :: k in r <==> k in keys && k.flags == flags
  {
    if keys == [] then []
    else
      var n := |keys| - 1;
      var front := WithFlags(keys[..n], flags);
      if keys[n].flags == flags then front + [keys[n]] else front
  }

  lemma {:induction false} WithFlagsConcat(a: seq<DnsKey>, b: seq<DnsKey>, flags: uint16)
    ensures WithFlags(a + b, flags) == WithFlags(a, flags) + WithFlags(b, flags)
  {
    if b == [] {
      assert a + b == a;
    } else {
      var n := |b| - 1;
      assert (a + b)[..|a + b| - 1] == a + b[..n];
      WithFlagsConcat(a, b[..n], flags);
    }
  }

  lemma {:induction false} WithFlagsAll(a: seq<DnsKey>, flags: uint16, other: uint16)
    requires forall k :: k in a ==> k.flags == flags
    requires other != flags
    ensures WithFlags(a, flags) == a && WithFlags(a, other) == []
  {
    if a == [] {
    } else {
      assert a == a[..|a| - 1] + [a[|a| - 1]];
      WithFlagsAll(a[..|a| - 1], flags, other);
    }
  }

  /** Keys split by flags come back as the same two sets when they are joined and split again. */
  lemma SplitAgain(zsk: seq<DnsKey>, ksk: seq<DnsKey>)
    requires forall k :: k in zsk ==> k.flags == ZSK_FLAGS
    requires forall k :: k in ksk ==> k.flags == KSK_FLAGS
    ensures WithFlags(zsk + ksk, ZSK_FLAGS) == zsk && WithFlags(zsk + ksk, KSK_FLAGS) == ksk
  {
    WithFlagsConcat(zsk, ksk, ZSK_FLAGS);
    WithFlagsConcat(zsk, ksk, KSK_FLAGS);
    WithFlagsAll(zsk, ZSK_FLAGS, KSK_FLAGS);
    WithFlagsAll(ksk, KSK_FLAGS, ZSK_FLAGS);
  }

  /** The keys by kind, and the shortest TTL among them. */
  method SplitKeys(keys: seq<DnsKey>) returns (ttl: uint32, zsk: seq<DnsKey>, ksk: seq<DnsKey>)
    ensures zsk == WithFlags(keys, ZSK_FLAGS) && ksk == WithFlags(keys, KSK_FLAGS)
    ensures (forall k :: k in keys ==> ttl <= k.ttl) && (ttl == MAX_TTL || exists k :: k in keys && ttl == k.ttl)
  {
    ttl, zsk, ksk := MAX_TTL, [], [];
    var i := 0;
    while i < |keys|
      invariant 0 <= i <= |keys|
      invariant forall j :: 0 <= j < i ==> ttl <= keys[j].ttl
      invariant ttl == MAX_TTL || exists j :: 0 <= j < i && ttl == keys[j].ttl
      invariant zsk == WithFlags(keys[..i], ZSK_FLAGS) && ksk == WithFlags(keys[..i], KSK_FLAGS)
    {
      assert keys[..i + 1][..i] == keys[..i];
      if keys[i].ttl < ttl {
        ttl := keys[i].ttl;
      }
      if keys[i].flags == KSK_FLAGS {
        ksk := ksk + [keys[i]];
      } else if keys[i].flags == ZSK_FLAGS {
        zsk := zsk + [keys[i]];
      }
      i := i + 1;
    }
    assert keys[..i] == keys;
  }

  class Store {
    var store: map<Name, Entry>

    /** The trust anchors configured for the root. */
    ghost function Anchors(): seq<DsRec>
      reads this
    {
      if ROOT in store && store[ROOT].ds.Some? then store[ROOT].ds.value.records else []
    }

    /** The validated keys held for a zone, whether or not they have expired. */
    ghost function Held(zone: Name): Option<KeySet>
      reads this
    {
      if zone in store then store[zone].keys else None
    }

    constructor ()
      ensures store == map[]
    {
      store := map[];
    }

    /** addDS: joins new anchors to those already there, under the shortest TTL of them all. */
    method AddDS(name: Name, dss: seq<DsRec>, now: int)
      modifies this
      ensures name in store && store.Keys == old(store.Keys) + {name}
      ensures forall n :: n in old(store) && n != name ==> store[n] == old(store)[n]
      ensures forall n :: Held(n) == old(Held(n))
      ensures store[name].ds.Some?
      ensures store[name].ds.value.records ==
              (if name in old(store) && old(store)[name].ds.Some? then old(store)[name].ds.value.records else []) + dss
      ensures
        var ds := store[name].ds.value;
        && (forall d :: d in ds.records ==> ds.expiresAt <= now + d.ttl * SECOND)
        && (ds.expiresAt == now + MAX_TTL * SECOND || exists d :: d in ds.records && ds.expiresAt == now + d.ttl * SECOND)
    {
      var item := if name in store then store[name] else Entry(None, None);
      var records := (if item.ds.Some? then item.ds.value.records else []) + dss;
      var ttl: uint32 := MAX_TTL;
      var i := 0;
      while i < |records|
        invariant 0 <= i <= |records|
        invariant forall j :: 0 <= j < i ==> ttl <= records[j].ttl
        invariant ttl == MAX_TTL || exists j :: 0 <= j < i && ttl == records[j].ttl
      {
        if records[i].ttl < ttl {
          ttl := records[i].ttl;
        }
        i := i + 1;
      }
      store := store[name := item.(ds := Some(DsSet(now + ttl * SECOND, records)))];
    }

    /** addDNSKEY: replaces a zone's keys; they expire with the shortest TTL among them. */
    method AddDNSKEY(name: Name, keys: seq<DnsKey>, now: int)
      modifies this
      ensures name in store && store.Keys == old(store.Keys) + {name}
      ensures forall n :: n in old(store) && n != name ==> store[n] == old(store)[n]
      ensures store[name].ds == if name in old(store) then old(store)[name].ds else None
      ensures Held(name).Some?
      ensures Held(name).value.zsk == WithFlags(keys, ZSK_FLAGS) && Held(name).value.ksk == WithFlags(keys, KSK_FLAGS)
      ensures
        var e := Held(name).value.expiresAt;
        && (forall k :: k in keys ==> e <= now + k.ttl * SECOND)
        && (e == now + MAX_TTL * SECOND || exists k :: k in keys && e == now + k.ttl * SECOND)
      ensures Anchors() == old(Anchors())
    {
      var ttl, zsk, ksk := SplitKeys(keys);
      var item := if name in store then store[name] else Entry(None, None);
      store := store[name := item.(keys := Some(KeySet(now + ttl * SECOND, zsk, ksk)))];
    }

    /** getDNSKEY: a zone's keys unless they have expired. */
    method GetDNSKEY(name: Name, now: int) returns (zsk: seq<DnsKey>, ksk: seq<DnsKey>)
      ensures Held(name).Some? && now <= Held(name).value.expiresAt ==>
                zsk == Held(name).value.zsk && ksk == Held(name).value.ksk
      ensures !(Held(name).Some? && now <= Held(name).value.expiresAt) ==> zsk == [] && ksk == []
    {
      if name !in store || store[name].keys.None? || now > store[name].keys.value.expiresAt {
        return [], [];
      }
      return store[name].keys.value.zsk, store[name].keys.value.ksk;
    }

    /** getDS */
    method GetDS(name: Name, now: int) returns (records: seq<DsRec>)
      ensures records != [] ==> name in store && store[name].ds.Some?
                                && records == store[name].ds.value.records && now <= store[name].ds.value.expiresAt
      ensures name in store && store[name].ds.Some? && now <= store[name].ds.value.expiresAt ==>
                records == store[name].ds.value.records
    {
      if name !in store || store[name].ds.None? || now > store[name].ds.value.expiresAt {
        return [];
      }
      return store[name].ds.value.records;
    }
  }
}
