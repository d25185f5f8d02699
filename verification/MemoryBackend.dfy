/**
 * The caching element with its memory backend: answers go in through
 * storeInCache, come out through Lookup, and every call is some steps of the
 * abstract cache.
 */
module MemoryBackend {
  import opened Octets
  import opened CacheBlob
  import opened RecencyCache
  import opened LruCache
  import opened CacheTtl
  import opened CacheFile

  /** The wire codec, left uninterpreted but for its round trip. */
  datatype Codec = Codec(pack: Msg -> Option<Bytes>, unpack: Bytes -> Option<Msg>)

  ghost predicate Faithful(c: Codec)
  {
    forall m :: c.pack(m).Some? ==> c.unpack(c.pack(m).value) == Some(m)
  }

  /** Whether a message unpacks. */
  function Unpacking(c: Codec): Unpacks
  {
    (b: Bytes) => c.unpack(b).Some?
  }

  /** A blob made by storeInCache at some time, under some options, from an answer. */
  ghost predicate StoredAs(c: Codec, k: Key, b: Bytes, opts: Options, stored: int64, m: Msg)
  {
    && ClockOk(stored) && Encodable(k) && MetaFor(opts, stored, m).Some? && c.pack(m).Some?
    && b == Encode(k, MetaFor(opts, stored, m).value, c.pack(m).value)
  }

  ghost predicate IsStored(c: Codec, k: Key, b: Bytes)
  {
    exists opts, stored, m :: StoredAs(c, k, b, opts, stored, m)
  }

  /** All that a run writes was made by storeInCache, here or in an earlier life of the cache. */
  ghost predicate AllStored(c: Codec, ops: seq<Op>)
  {
    forall i :: 0 <= i < |ops| && Written(ops[i]).Some? ==> IsStored(c, Written(ops[i]).value.0, Written(ops[i]).value.1)
  }

  /** What this cache itself stores is. */
  ghost predicate OwnStored(c: Codec, ops: seq<Op>)
  {
    forall i :: 0 <= i < |ops| && ops[i].Store? && Written(ops[i]).Some? ==>
      IsStored(c, Written(ops[i]).value.0, Written(ops[i]).value.1)
  }

  /** Whether a blob found for a key can be served at a time. */
  predicate Servable(c: Codec, b: Bytes, now: int64)
    requires WellSized(b)
  {
    && now <= Expiry(b)
    && c.unpack(Message(b)).Some?
    && AllFresh(c.unpack(Message(b)).value, CacheAge(now, Timestamp(b)))
  }

  lemma {:induction false} LastStoredIsStored(c: Codec, ops: seq<Op>, k: Key)
    requires AllStored(c, ops) && LastStored(ops, k).Some?
    ensures IsStored(c, k, LastStored(ops, k).value)
  {
    hide IsStored, Written, MatchesKey;
    var front, op := ops[..|ops| - 1], ops[|ops| - 1];
    if Written(op).Some? && Written(op).value.0 == k {
    } else {
      LastStoredIsStored(c, front, k);
    }
  }

  lemma FoundIsSized(s: Recency, h: uint64, k: Key)
    ensures FindKey(s, h, k).Some? ==> WellSized(FindKey(s, h, k).value.blob)
  {
    if FindKey(s, h, k).Some? {
      MatchesIff(FindKey(s, h, k).value.blob, k);
    }
  }

  /** A reply told from what was stored and the clock alone. */
  ghost predicate ServedFrom(opts: Options, stored: int64, m: Msg, q: Query, now: int64, reply: Msg, prefetch: bool)
  {
    && ClockOk(stored) && MetaFor(opts, stored, m).Some?
    && Served(m, reply, q, stored, now) && prefetch == MetaFor(opts, stored, m).value.prefetchEligible
  }

  /** A blob made by storeInCache that can be served is served as the answer it was made from, aged by the time since. */
  lemma HitIsServed(c: Codec, q: Query, now: int64, b: Bytes, opts: Options, stored: int64, m: Msg)
    requires Faithful(c) && WellSized(b) && Servable(c, b, now) && StoredAs(c, q.key, b, opts, stored, m)
    ensures c.unpack(Message(b)) == Some(m)
    ensures ServedFrom(opts, stored, m, q, now, Aged(m, q, CacheAge(now, Timestamp(b))), PrefetchEligible(b))
  {
    hide Encode, KeyOf, Served, AllFresh, Aged, CacheAge, Lifetime, Timestamp, Expiry, PrefetchEligible, Message, WellSized;
    RoundTrip(q.key, MetaFor(opts, stored, m).value, c.pack(m).value);
    AgedIsServed(opts, stored, m, q, now);
  }

  /** Steps that restore blobs made by storeInCache. */
  lemma RestoresStored(c: Codec, blobs: seq<Bytes>)
    requires forall i :: 0 <= i < |blobs| ==> WellSized(blobs[i]) && IsStored(c, KeyOf(blobs[i]), blobs[i])
    ensures AllStored(c, Restores(Unpacking(c), blobs))
  {
    hide IsStored, KeyOf, WellSized, BlobFromFile, Restores;
    var read := Restores(Unpacking(c), blobs);
    forall i | 0 <= i < |read| ensures Written(read[i]).Some? ==> IsStored(c, Written(read[i]).value.0, Written(read[i]).value.1) {
      assert read[i] in read;
      var j :| 0 <= j < |blobs| && blobs[j] == read[i].blob;
    }
  }

  /** What a cache writes to its file, cut anywhere, is again all made by storeInCache, so the above outlasts a restart. */
  lemma RestartKeepsStored(c: Codec, hash: Hash, capacity: int, ops: seq<Op>, n: nat)
    requires AllStored(c, ops) && n <= |Frames(Oldest(Run(hash, capacity, ops)))|
    ensures AllStored(c, Restores(Unpacking(c), Records(FileOf(Run(hash, capacity, ops))[..|HEADER| + n][|HEADER|..])))
  {
    hide IsStored, Run, KeyOf, Records, Frames, FileOf, Whole, Keep, Oldest, NetLen, NameLen, Restores, Written;
    var s := Run(hash, capacity, ops);
    var t := Fitting(s);
    forall i | 0 <= i < |t|
      ensures WellSized(t[i].blob) && |t[i].blob| <= MAX_RECORD && IsStored(c, KeyOf(t[i].blob), t[i].blob)
    {
      assert t[i] in t;
      var j := RunOrigin(hash, capacity, ops, t[i]);
    }
    FileCut(s, n);
    FramesFitting(s);
    RecordsOfFrames(Oldest(t), n);
    RestoresStored(c, Oldest(t)[..Whole(Oldest(t), n)]);
  }

  class Backend {
    const opts: Options
    const codec: Codec
    const lru: Cache
    /** Every step the cache has taken. */
    ghost var ops: seq<Op>

    ghost predicate Valid()
      reads this, lru, lru.repr
    {
      && lru.Valid() && lru.contents == Run(lru.hash, lru.capacity, ops)
      && Faithful(codec) && OwnStored(codec, ops)
    }

    /** NewMemoryBackend: empty, or with what can be read from a raw cache file. */
    constructor (opts: Options, codec: Codec, capacity: int, hash: Hash, file: Option<Bytes>)
      requires Faithful(codec) && (file.Some? ==> MAGIC <= file.value)
      ensures Valid() && fresh(lru) && fresh(lru.repr)
      ensures ops == if file.Some? && HEADER <= file.value then Restores(Unpacking(codec), Records(file.value[|HEADER|..])) else []
      ensures this.opts == opts && this.codec == codec && lru.capacity == capacity && lru.hash == hash
    {
      this.opts, this.codec := opts, codec;
      lru := new Cache(capacity, hash);
      ops := [];
      new;
      if file.Some? {
        LoadFromFile(file.value);
      }
    }

    /** loadFromFile: an unusable header leaves the cache empty. */
    method LoadFromFile(file: Bytes)
      requires lru.Valid() && lru.contents == [] && ops == [] && Faithful(codec)
      modifies this, lru, lru.repr
      ensures Valid() && fresh(lru.repr - old(lru.repr))
      ensures ops == if HEADER <= file then Restores(Unpacking(codec), Records(file[|HEADER|..])) else []
    {
      hide Run, AddAll, Restores, Records, Faithful, OwnStored;
      NothingRun(lru.hash, lru.capacity);
      RestoresOwn(codec, Records(if HEADER <= file then file[|HEADER|..] else []));
      var err := DeserializeRaw(lru, file, Unpacking(codec));
      if err.None? {
        AddAllIsRun(Unpacking(codec), lru.hash, lru.capacity, [], Records(file[|HEADER|..]));
        ops := Restores(Unpacking(codec), Records(file[|HEADER|..]));
        assert [] + ops == ops;
      }
    }

    /** Store, for an answer whose expiry is settled: encodes it and adds it. */
    method Store(key: Key, m: Msg, meta: Meta, ghost stored: int64)
      requires Valid() && ClockOk(stored) && MetaFor(opts, stored, m) == Some(meta)
      modifies this, lru, lru.repr
      ensures Valid() && fresh(lru.repr - old(lru.repr))
      ensures ops == old(ops) + if codec.pack(m).Some? then [Op.Store(key, meta, codec.pack(m).value)] else []
    {
      hide Run, Add, MetaFor, ClockOk, Encode, Faithful;
      var wire := codec.pack(m);
      if wire.None? {
        return;
      }
      ghost var op := Op.Store(key, meta, wire.value);
      assert Encodable(key) ==> IsStored(codec, key, Encode(key, meta, wire.value)) by {
        if Encodable(key) {
          assert StoredAs(codec, key, Encode(key, meta, wire.value), opts, stored, m);
        }
      }
      RunKeeps(lru.hash, lru.capacity, ops);
      RunSnoc(lru.hash, lru.capacity, ops, op);
      ops := ops + [op];
      var blob := NewCacheBlobFromWire(key, meta, wire.value);
      if blob.Some? {
        lru.AddKey(key, blob.value);
      }
    }

    /** storeInCache */
    method StoreInCache(key: Key, m: Msg, now: int64)
      requires Valid() && ClockOk(now)
      modifies this, lru, lru.repr
      ensures Valid() && fresh(lru.repr - old(lru.repr))
      ensures ops == old(ops) +
                     if MetaFor(opts, now, m).Some? && codec.pack(m).Some?
                     then [Op.Store(key, MetaFor(opts, now, m).value, codec.pack(m).value)] else []
    {
      hide *;
      var meta := ExpiryOf(opts, now, m);
      if meta.None? {
        return;
      }
      Store(key, m, meta.value, now);
    }

    /** Evict, for one query. */
    method Evict(key: Key)
      requires Valid()
      modifies this, lru, lru.repr
      ensures Valid() && lru.repr == old(lru.repr) && ops == old(ops) + [Op.Evict(key)]
    {
      hide Run, Delete, Faithful;
      RunSnoc(lru.hash, lru.capacity, ops, Op.Evict(key));
      lru.DeleteKey(key);
      ops := ops + [Op.Evict(key)];
    }

    /** Flush */
    method Flush()
      requires Valid()
      modifies this, lru, lru.repr
      ensures Valid() && fresh(lru.repr) && ops == old(ops) + [Op.Flush]
    {
      hide Run, Faithful;
      RunSnoc(lru.hash, lru.capacity, ops, Op.Flush);
      lru.Reset();
      ops := ops + [Op.Flush];
    }

    /** One round of garbage collection: exactly the expired entries go. */
    method Collect(now: int64)
      requires Valid()
      modifies this, lru, lru.repr
      ensures Valid() && lru.repr == old(lru.repr)
      ensures forall e :: e in lru.contents <==> e in old(lru.contents) && !(HasHeader(e.blob) && now > Expiry(e.blob))
    {
      hide Run, Faithful, Expiry, Keep, Linked, Shows, NoDuplicates, Within, Indexed, Inner;
      var drop := (b: Bytes) => HasHeader(b) && now > Expiry(b);
      RunSnoc(lru.hash, lru.capacity, ops, Op.Collect(drop));
      lru.DeleteFunc(drop);
      ops := ops + [Op.Collect(drop)];
    }

    /**
     * Lookup. A hit is what was last stored under this very key, aged; if
     * storeInCache made it, each TTL is told from the clock alone. Anything found
     * but not servable is evicted.
     */
    method Lookup(q: Query, now: int64) returns (answer: Reply?, prefetch: bool, ghost blob: Bytes)
      requires Valid()
      modifies this, lru, lru.repr
      ensures Valid() && lru.repr == old(lru.repr) && (answer != null ==> fresh(answer))
      ensures
        var e := FindKey(old(lru.contents), lru.hash(q.key), q.key);
        && (e.Some? ==> WellSized(e.value.blob))
        && (answer != null <==> e.Some? && Servable(codec, e.value.blob, now))
        && (answer != null ==> ops == old(ops) + [Op.Lookup(q.key)])
        && (answer == null ==> ops == old(ops) + [Op.Lookup(q.key)] + if e.Some? then [Op.Evict(q.key)] else [])
      ensures answer != null ==>
                && LastStored(old(ops), q.key) == Some(blob) && WellSized(blob) && Servable(codec, blob, now)
                && answer.View() == Aged(codec.unpack(Message(blob)).value, q, CacheAge(now, Timestamp(blob)))
                && prefetch == PrefetchEligible(blob)
                && (AllStored(codec, old(ops)) ==> IsStored(codec, q.key, blob))
      ensures answer != null ==> forall o, stored, m :: StoredAs(codec, q.key, blob, o, stored, m) ==>
                ServedFrom(o, stored, m, q, now, answer.View(), prefetch)
    {
      hide *;
      answer, prefetch, blob := null, false, [];
      FoundIsSized(lru.contents, lru.hash(q.key), q.key);
      var found := Touch(q.key);
      if found.None? {
        return;
      }
      answer := Serve(codec, found.value, q, now);
      if answer == null {
        Evict(q.key);
        return;
      }
      blob := found.value;
      prefetch := PrefetchEligible(found.value);
      LookupSound(lru.hash, lru.capacity, old(ops), q.key);
      if AllStored(codec, old(ops)) {
        LastStoredIsStored(codec, old(ops), q.key);
      }
      forall o, stored, m | StoredAs(codec, q.key, blob, o, stored, m)
        ensures ServedFrom(o, stored, m, q, now, answer.View(), prefetch)
      {
        HitIsServed(codec, q, now, blob, o, stored, m);
      }
    }

    /** The locked part of Lookup. */
    method Touch(key: Key) returns (blob: Option<Bytes>)
      requires Valid()
      modifies this, lru, lru.repr
      ensures Valid() && lru.repr == old(lru.repr) && ops == old(ops) + [Op.Lookup(key)]
      ensures old(lru.contents) == Run(lru.hash, lru.capacity, old(ops)) && Faithful(codec)
      ensures FindKey(old(lru.contents), lru.hash(key), key) ==
              match blob case None => None case Some(b) => Some(Entry(lru.hash(key), b))
    {
      hide Run, RecencyCache.Touch, Faithful;
      RunSnoc(lru.hash, lru.capacity, ops, Op.Lookup(key));
      blob := lru.Get(key);
      ops := ops + [Op.Lookup(key)];
    }
  }

  /** Restoring is not storing. */
  lemma RestoresOwn(c: Codec, blobs: seq<Bytes>)
    ensures OwnStored(c, Restores(Unpacking(c), blobs)) && OwnStored(c, [])
  {
    hide Restores;
    var ops := Restores(Unpacking(c), blobs);
    assert forall i :: 0 <= i < |ops| ==> ops[i] in ops;
  }

  lemma NothingRun(hash: Hash, capacity: int)
    ensures Run(hash, capacity, []) == []
  {
  }

  /** The unlocked part: expiry, unpacking, ageing. */
  method Serve(c: Codec, blob: Bytes, q: Query, now: int64) returns (answer: Reply?)
    requires WellSized(blob)
    ensures answer != null <==> Servable(c, blob, now)
    ensures answer != null ==>
              && fresh(answer) && fresh(answer.answer) && fresh(answer.ns) && fresh(answer.extra)
              && answer.View() == Aged(c.unpack(Message(blob)).value, q, CacheAge(now, Timestamp(blob)))
  {
    hide NetLen, NameLen, Expiry, Timestamp, Message, AllFresh, Aged, CacheAge;
    answer := null;
    if now > Expiry(blob) {
      return;
    }
    var unpacked := c.unpack(Message(blob));
    if unpacked.None? {
      return;
    }
    var a := new Reply(unpacked.value);
    var ok := a.Age(q, CacheAge(now, Timestamp(blob)));
    if ok {
      answer := a;
    }
  }
}
