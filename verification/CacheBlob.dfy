/**
 * The stored form of a cache entry: key, metadata and packed message in one
 * byte string with fixed offsets.
 */
module CacheBlob {
  import opened Octets

  const BLOB_VERSION: byte := 2
  const OFF_VERSION := 0
  const OFF_META := 1
  const OFF_TIMESTAMP := 2
  const OFF_EXPIRY := 10
  const OFF_KEY_FLAGS := 18
  const OFF_QTYPE := 19
  const OFF_QCLASS := 21
  const OFF_ECS_MASK := 23
  const OFF_NET_LEN := 24
  const OFF_NAME_LEN := 26
  const HDR_LEN := 28

  type int64 = x: int | -0x8000_0000_0000_0000 <= x < 0x8000_0000_0000_0000

  datatype Key = Key(name: Bytes, qtype: uint16, qclass: uint16, net: Bytes, dnssecOk: bool, checkingDisabled: bool, ecsMask: byte)

  /** Times are unix nanoseconds, zero standing for the zero time. */
  datatype Meta = Meta(timestamp: int64, expiry: int64, prefetchEligible: bool)

  // ----- big-endian words -----

  function Pow256(w: nat): (p: nat)
    ensures p > 0
  {
    if w == 0 then 1 else 256 * Pow256(w - 1)
  }

  function PutBE(n: nat, w: nat): (b: Bytes)
    ensures |b| == w
  {
    if w == 0 then [] else PutBE(n / 256, w - 1) + [(n % 256) as byte]
  }

  function GetBE(b: Bytes): (n: nat)
    ensures n < Pow256(|b|)
  {
    if b == [] then 0 else 256 * GetBE(b[..|b| - 1]) + b[|b| - 1] as int
  }

  lemma {:induction false} GetPut(n: nat, w: nat)
    requires n < Pow256(w)
    ensures GetBE(PutBE(n, w)) == n
  {
    if w == 0 {
    } else {
      GetPut(n / 256, w - 1);
      assert PutBE(n, w)[..w - 1] == PutBE(n / 256, w - 1);
    }
  }

  /** uint64(n) and int64(n) */
  function ToUnsigned(n: int64): uint64
  {
    if n < 0 then n + TWO_64 else n
  }

  function ToSigned(u: uint64): int64
  {
    if u < 0x8000_0000_0000_0000 then u else u - TWO_64
  }

  lemma Widths()
    ensures Pow256(2) == 0x1_0000 && Pow256(4) == TWO_32 && Pow256(8) == TWO_64
  {
    assert Pow256(2) == 256 * 256 && Pow256(4) == 256 * 256 * Pow256(2);
    assert Pow256(6) == 256 * 256 * Pow256(4) && Pow256(8) == 256 * 256 * Pow256(6);
  }

  // ----- building a blob -----

  function KeyFlags(k: Key): byte
  {
    (if k.dnssecOk then 1 else 0) + (if k.checkingDisabled then 2 else 0)
  }

  function MetaFlags(m: Meta): byte
  {
    if m.prefetchEligible then 1 else 0
  }

  function Header(k: Key, m: Meta): (b: Bytes)
    ensures |b| == HDR_LEN
  {
    [BLOB_VERSION] + [MetaFlags(m)] + PutBE(ToUnsigned(m.timestamp), 8) + PutBE(ToUnsigned(m.expiry), 8)
    + [KeyFlags(k)] + PutBE(k.qtype, 2) + PutBE(k.qclass, 2) + [k.ecsMask] + PutBE(|k.net|, 2) + PutBE(|k.name|, 2)
  }

  /** The blob, as a whole. */
  function Encode(k: Key, m: Meta, wire: Bytes): Bytes
  {
    Header(k, m) + k.net + k.name + wire
  }

  predicate Encodable(k: Key)
  {
    |k.name| <= UINT16_MAX && |k.net| <= UINT16_MAX
  }

  /** One write into the buffer, right after what is already there. */
  method Put(blob: array<byte>, n: nat, data: Bytes) returns (n': nat)
    requires n + |data| <= blob.Length
    modifies blob
    ensures n' == n + |data|
    ensures blob[..n'] == old(blob[..n]) + data
  {
    var i := 0;
    while i < |data|
      invariant 0 <= i <= |data|
      invariant blob[..n] == old(blob[..n])
      invariant blob[n..n + i] == data[..i]
    {
      blob[n + i] := data[i];
      i := i + 1;
    }
    n' := n + |data|;
    assert blob[..n'] == blob[..n] + blob[n..n + i];
  }

  /** newCacheBlobFromWire: fills a buffer of the exact size; names too long for their length field are refused. */
  method NewCacheBlobFromWire(k: Key, m: Meta, wire: Bytes) returns (r: Option<Bytes>)
    ensures r.Some? <==> Encodable(k)
    ensures r.Some? ==> r.value == Encode(k, m, wire)
  {
    if |k.name| > UINT16_MAX || |k.net| > UINT16_MAX {
      return None;
    }
    var blob := new byte[HDR_LEN + |k.net| + |k.name| + |wire|](_ => 0);
    PutHeader(blob, k, m);
    var n := Put(blob, HDR_LEN, k.net);
    n := Put(blob, n, k.name);
    n := Put(blob, n, wire);
    assert blob[..] == blob[..n];
    return Some(blob[..]);
  }

  method PutHeader(blob: array<byte>, k: Key, m: Meta)
    requires blob.Length >= HDR_LEN
    modifies blob
    ensures blob[..HDR_LEN] == Header(k, m)
  {
    hide PutBE;
    PutMeta(blob, m);
    var n := Put(blob, OFF_KEY_FLAGS, [KeyFlags(k)]);
    n := Put(blob, OFF_QTYPE, PutBE(k.qtype, 2));
    n := Put(blob, OFF_QCLASS, PutBE(k.qclass, 2));
    n := Put(blob, OFF_ECS_MASK, [k.ecsMask]);
    n := Put(blob, OFF_NET_LEN, PutBE(|k.net|, 2));
    n := Put(blob, OFF_NAME_LEN, PutBE(|k.name|, 2));
  }

  method PutMeta(blob: array<byte>, m: Meta)
    requires blob.Length >= HDR_LEN
    modifies blob
    ensures blob[..OFF_KEY_FLAGS] ==
            [BLOB_VERSION] + [MetaFlags(m)] + PutBE(ToUnsigned(m.timestamp), 8) + PutBE(ToUnsigned(m.expiry), 8)
  {
    hide PutBE;
    assert blob[..OFF_VERSION] == [];
    var n := Put(blob, OFF_VERSION, [BLOB_VERSION]);
    n := Put(blob, OFF_META, [MetaFlags(m)]);
    n := Put(blob, OFF_TIMESTAMP, PutBE(ToUnsigned(m.timestamp), 8));
    n := Put(blob, OFF_EXPIRY, PutBE(ToUnsigned(m.expiry), 8));
  }

  // ----- reading a blob -----

  predicate HasHeader(b: Bytes)
  {
    |b| >= HDR_LEN
  }

  function Timestamp(b: Bytes): int64
    requires HasHeader(b)
  {
    Widths();
    ToSigned(GetBE(b[OFF_TIMESTAMP..OFF_EXPIRY]))
  }

  function Expiry(b: Bytes): int64
    requires HasHeader(b)
  {
    Widths();
    ToSigned(GetBE(b[OFF_EXPIRY..OFF_KEY_FLAGS]))
  }

  predicate PrefetchEligible(b: Bytes)
    requires HasHeader(b)
  {
    b[OFF_META] % 2 == 1
  }

  function NetLen(b: Bytes): nat
    requires HasHeader(b)
  {
    GetBE(b[OFF_NET_LEN..OFF_NAME_LEN])
  }

  function NameLen(b: Bytes): nat
    requires HasHeader(b)
  {
    GetBE(b[OFF_NAME_LEN..HDR_LEN])
  }

  /** The lengths in the header fit the blob. */
  predicate WellSized(b: Bytes)
  {
    HasHeader(b) && HDR_LEN + NetLen(b) + NameLen(b) <= |b|
  }

  function Message(b: Bytes): Bytes
    requires WellSized(b)
  {
    b[HDR_LEN + NetLen(b) + NameLen(b)..]
  }

  /** key: rebuilds the key, reading two bits of the flag byte. */
  function KeyOf(b: Bytes): Key
    requires WellSized(b)
  {
    Widths();
    var n := HDR_LEN + NetLen(b);
    Key(b[n..n + NameLen(b)], GetBE(b[OFF_QTYPE..OFF_QCLASS]), GetBE(b[OFF_QCLASS..OFF_ECS_MASK]), b[HDR_LEN..n],
        b[OFF_KEY_FLAGS] % 2 == 1, b[OFF_KEY_FLAGS] / 2 % 2 == 1, b[OFF_ECS_MASK])
  }

  /** matchesKey: compares the whole flag byte. */
  predicate MatchesKey(b: Bytes, k: Key)
  {
    if !HasHeader(b) then false
    else
      var netLen, nameLen := NetLen(b), NameLen(b);
      && HDR_LEN + netLen + nameLen <= |b|
      && b[OFF_KEY_FLAGS] == KeyFlags(k)
      && b[OFF_ECS_MASK] == k.ecsMask
      && netLen == |k.net|
      && nameLen == |k.name|
      && GetBE(b[OFF_QTYPE..OFF_QCLASS]) == k.qtype
      && GetBE(b[OFF_QCLASS..OFF_ECS_MASK]) == k.qclass
      && b[HDR_LEN..HDR_LEN + netLen] == k.net
      && b[HDR_LEN + netLen..HDR_LEN + netLen + nameLen] == k.name
  }

  /** For any byte string: it matches exactly the key it decodes to, provided no stray bit sits in its flag byte. */
  lemma MatchesIff(b: Bytes, k: Key)
    ensures MatchesKey(b, k) <==> WellSized(b) && b[OFF_KEY_FLAGS] < 4 && KeyOf(b) == k
  {
  }

  // ----- round trip -----

  /** Where each field of a built blob sits. */
  lemma HeaderFields(k: Key, m: Meta)
    ensures
      var h := Header(k, m);
      && h[OFF_VERSION] == BLOB_VERSION && h[OFF_META] == MetaFlags(m)
      && h[OFF_TIMESTAMP..OFF_EXPIRY] == PutBE(ToUnsigned(m.timestamp), 8)
      && h[OFF_EXPIRY..OFF_KEY_FLAGS] == PutBE(ToUnsigned(m.expiry), 8)
      && h[OFF_KEY_FLAGS] == KeyFlags(k)
      && h[OFF_QTYPE..OFF_QCLASS] == PutBE(k.qtype, 2)
      && h[OFF_QCLASS..OFF_ECS_MASK] == PutBE(k.qclass, 2)
      && h[OFF_ECS_MASK] == k.ecsMask
      && h[OFF_NET_LEN..OFF_NAME_LEN] == PutBE(|k.net|, 2)
      && h[OFF_NAME_LEN..HDR_LEN] == PutBE(|k.name|, 2)
  {
    hide PutBE;
  }

  lemma SliceOfEncode(k: Key, m: Meta, wire: Bytes, lo: nat, hi: nat)
    requires lo <= hi <= HDR_LEN
    ensures Encode(k, m, wire)[lo..hi] == Header(k, m)[lo..hi]
  {
    hide Header;
  }

  /** A built blob gives back its key, its metadata and its message, and its version is the current one. */
  lemma RoundTrip(k: Key, m: Meta, wire: Bytes)
    requires Encodable(k)
    ensures
      var b := Encode(k, m, wire);
      && WellSized(b) && b[OFF_VERSION] == BLOB_VERSION
      && KeyOf(b) == k && Message(b) == wire
      && Timestamp(b) == m.timestamp && Expiry(b) == m.expiry && (PrefetchEligible(b) <==> m.prefetchEligible)
  {
    hide PutBE, GetBE, Header;
    var b := Encode(k, m, wire);
    HeaderFields(k, m);
    Widths();
    SliceOfEncode(k, m, wire, OFF_TIMESTAMP, OFF_EXPIRY);
    SliceOfEncode(k, m, wire, OFF_EXPIRY, OFF_KEY_FLAGS);
    SliceOfEncode(k, m, wire, OFF_QTYPE, OFF_QCLASS);
    SliceOfEncode(k, m, wire, OFF_QCLASS, OFF_ECS_MASK);
    SliceOfEncode(k, m, wire, OFF_NET_LEN, OFF_NAME_LEN);
    SliceOfEncode(k, m, wire, OFF_NAME_LEN, HDR_LEN);
    GetPut(ToUnsigned(m.timestamp), 8);
    GetPut(ToUnsigned(m.expiry), 8);
    GetPut(k.qtype, 2);
    GetPut(k.qclass, 2);
    GetPut(|k.net|, 2);
    GetPut(|k.name|, 2);
    Variable(k, m, wire);
  }

  /** The variable part of a built blob. */
  lemma Variable(k: Key, m: Meta, wire: Bytes)
    ensures
      var b, n := Encode(k, m, wire), HDR_LEN + |k.net|;
      && b[HDR_LEN..n] == k.net && b[n..n + |k.name|] == k.name && b[n + |k.name|..] == wire
  {
    hide Header;
  }

  /** A built blob matches the key it was stored under and no other. */
  lemma BuiltMatches(k: Key, m: Meta, wire: Bytes, other: Key)
    requires Encodable(k)
    ensures MatchesKey(Encode(k, m, wire), other) <==> other == k
  {
    hide MatchesKey, KeyOf, Encode;
    RoundTrip(k, m, wire);
    MatchesIff(Encode(k, m, wire), other);
    BuiltFlags(k, m, wire);
  }

  lemma BuiltFlags(k: Key, m: Meta, wire: Bytes)
    ensures Encode(k, m, wire)[OFF_KEY_FLAGS] == KeyFlags(k) < 4
  {
    HeaderFields(k, m);
  }

  /** A stray bit in the flag byte breaks the match but not the decoded key: such a blob never answers its own key. */
  lemma StrayFlagBit(k: Key, m: Meta, wire: Bytes)
    requires Encodable(k)
    ensures
      var b := Encode(k, m, wire)[OFF_KEY_FLAGS := KeyFlags(k) + 4];
      WellSized(b) && KeyOf(b) == k && !MatchesKey(b, k)
  {
    hide Encode, GetBE;
    var e := Encode(k, m, wire);
    RoundTrip(k, m, wire);
    var b := e[OFF_KEY_FLAGS := KeyFlags(k) + 4];
    BuiltFlags(k, m, wire);
    assert b[OFF_QTYPE..OFF_QCLASS] == e[OFF_QTYPE..OFF_QCLASS] && b[OFF_QCLASS..OFF_ECS_MASK] == e[OFF_QCLASS..OFF_ECS_MASK];
    assert b[OFF_NET_LEN..OFF_NAME_LEN] == e[OFF_NET_LEN..OFF_NAME_LEN] && b[OFF_NAME_LEN..HDR_LEN] == e[OFF_NAME_LEN..HDR_LEN];
    var n := HDR_LEN + NetLen(e);
    assert b[HDR_LEN..n] == e[HDR_LEN..n] && b[n..n + NameLen(e)] == e[n..n + NameLen(e)];
    MatchesIff(b, k);
  }
}
