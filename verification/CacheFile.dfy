/**
 * The raw cache file: a header, then every entry's blob behind its length, the
 * least recent entry first.
 */
module CacheFile {
  import opened Octets
  import opened CacheBlob
  import opened RecencyCache
  import opened LruCache

  const MAGIC: Bytes := [0, 82, 68, 67]
  const FILE_VERSION: byte := 2
  const HEADER: Bytes := MAGIC + [FILE_VERSION]
  const MAX_RECORD: nat := 0x100_0000

  datatype LoadError = ShortHeader | NotARawFile | UnsupportedVersion

  /** Whether a packed message unpacks, left uninterpreted. */
  type Unpacks = Bytes -> bool

  // ----- the format -----

  /** One record; a blob over the limit is skipped. */
  function Frame(b: Bytes): Bytes
  {
    if |b| > MAX_RECORD then [] else PutBE(|b|, 4) + b
  }

  /** The records of a list of blobs, in order. */
  function Frames(blobs: seq<Bytes>): Bytes
  {
    if blobs == [] then [] else Frame(blobs[0]) + Frames(blobs[1..])
  }

  /** The blobs of a cache in the order they are written. */
  function Oldest(s: Recency): (r: seq<Bytes>)
    ensures |r| == |s| && forall i :: 0 <= i < |s| ==> r[i] == s[|s| - 1 - i].blob
  {
    if s == [] then [] else Oldest(s[1..]) + [s[0].blob]
  }

  /** The whole file of a cache. */
  function FileOf(s: Recency): (file: Bytes)
    ensures |file| == |HEADER| + |Frames(Oldest(s))|
  {
    HEADER + Frames(Oldest(s))
  }

  lemma FileCut(s: Recency, n: nat)
    requires n <= |Frames(Oldest(s))|
    ensures FileOf(s)[..|HEADER| + n][|HEADER|..] == Frames(Oldest(s))[..n]
    ensures n == |Frames(Oldest(s))| ==> FileOf(s)[..|HEADER| + n] == FileOf(s)
  {
    hide Frames, Oldest;
  }

  /** serializeRaw: walks the list from the tail to the head. */
  method SerializeRaw(c: Cache) returns (file: Bytes)
    requires c.Valid()
    ensures file == FileOf(c.contents)
  {
    hide Frame, Frames, Oldest, PutBE;
    file := HEADER;
    ghost var j := |c.ring| - 1;
    var item := c.tail.prev;
    LastWritten(c.contents);
    while item != c.head
      invariant 1 <= j < |c.ring| && item == c.ring[j - 1]
      invariant file == HEADER + Frames(Oldest(c.contents[j - 1..]))
      decreases j
    {
      assert item.blob == c.contents[j - 2].blob;
      WriteStep(c.contents, j - 2);
      if |item.blob| <= MAX_RECORD {
        file := file + PutBE(|item.blob|, 4);
        file := file + item.blob;
      }
      FrameIs(item.blob);
      item := item.prev;
      j := j - 1;
    }
    assert j == 1 && c.contents[0..] == c.contents;
  }

  lemma FrameIs(b: Bytes)
    ensures Frame(b) == if |b| > MAX_RECORD then [] else PutBE(|b|, 4) + b
  {
  }

  lemma LastWritten(s: Recency)
    ensures Frames(Oldest(s[|s|..])) == [] && HEADER + [] == HEADER
  {
  }

  lemma WriteStep(s: Recency, i: nat)
    requires i < |s|
    ensures Frames(Oldest(s[i..])) == Frames(Oldest(s[i + 1..])) + Frame(s[i].blob)
  {
    assert s[i..][1..] == s[i + 1..];
    FramesConcat(Oldest(s[i + 1..]), [s[i].blob]);
    assert Frames([s[i].blob]) == Frame(s[i].blob) + Frames([]);
  }

  lemma {:induction false} FramesConcat(a: seq<Bytes>, b: seq<Bytes>)
    ensures Frames(a + b) == Frames(a) + Frames(b)
  {
    if a == [] {
      assert a + b == b;
    } else {
      assert (a + b)[1..] == a[1..] + b;
      FramesConcat(a[1..], b);
    }
  }

  // ----- reading -----

  /** The blobs a reader takes from the bytes after the header: it stops at the first length it cannot trust or fill. */
  function Records(data: Bytes): seq<Bytes>
    decreases |data|
  {
    if |data| < 4 then []
    else
      var n := GetBE(data[..4]);
      if n < HDR_LEN || n > MAX_RECORD || |data| - 4 < n then []
      else [data[4..4 + n]] + Records(data[4 + n..])
  }

  /** blobFromFile: the key of a blob that is safe to keep. */
  function BlobFromFile(unpacks: Unpacks, b: Bytes): (r: Option<Key>)
    ensures r.Some? ==> WellSized(b) && r.value == KeyOf(b) && r.value.name != []
  {
    if |b| < HDR_LEN || b[OFF_VERSION] != BLOB_VERSION then None
    else if HDR_LEN + NetLen(b) + NameLen(b) > |b| then None
    else if !unpacks(Message(b)) then None
    else
      var k := KeyOf(b);
      if k.name == [] then None else Some(k)
  }

  /** What reading a list of blobs adds to a cache. */
  function AddAll(unpacks: Unpacks, hash: Hash, capacity: int, s: Recency, blobs: seq<Bytes>): Recency
    decreases |blobs|
  {
    if blobs == [] then s
    else
      var k := BlobFromFile(unpacks, blobs[0]);
      var s' := if k.Some? then Add(s, capacity, Entry(hash(k.value), blobs[0])) else s;
      AddAll(unpacks, hash, capacity, s', blobs[1..])
  }

  /** deserializeRaw: adds every usable record to the cache; damage to the framing ends the reading, not the loading. */
  method DeserializeRaw(c: Cache, file: Bytes, unpacks: Unpacks) returns (err: Option<LoadError>)
    requires c.Valid() && (c.capacity > 0 ==> |c.contents| <= c.capacity)
    modifies c, c.repr
    ensures c.Valid() && fresh(c.repr - old(c.repr)) && (c.capacity > 0 ==> |c.contents| <= c.capacity)
    ensures err.None? <==> HEADER <= file
    ensures err.Some? ==> c.contents == old(c.contents)
    ensures err.None? ==>
              c.contents == AddAll(unpacks, c.hash, c.capacity, old(c.contents), Records(file[|HEADER|..]))
  {
    hide *;
    err := CheckHeader(file);
    if err.Some? {
      return;
    }
    ghost var start := c.contents;
    ghost var all := Records(file[|HEADER|..]);
    var rest := file[|HEADER|..];
    while true
      invariant c.Valid() && fresh(c.repr - old(c.repr)) && (c.capacity > 0 ==> |c.contents| <= c.capacity)
      invariant AddAll(unpacks, c.hash, c.capacity, start, all) ==
                AddAll(unpacks, c.hash, c.capacity, c.contents, Records(rest))
      decreases |rest|
    {
      AddAllStep(unpacks, c.hash, c.capacity, c.contents, Records(rest));
      var blob, rest' := NextRecord(rest);
      if blob.None? {
        return;
      }
      rest := rest';
      var key := BlobFromFile(unpacks, blob.value);
      if key.Some? {
        c.AddKey(key.value, blob.value);
      }
    }
  }

  method CheckHeader(file: Bytes) returns (err: Option<LoadError>)
    ensures err == Some(ShortHeader) <==> |file| < |HEADER|
    ensures err == Some(NotARawFile) <==> |file| >= |HEADER| && !(MAGIC <= file)
    ensures err.None? <==> HEADER <= file
    ensures err == Some(UnsupportedVersion) <==> |file| >= |HEADER| && MAGIC <= file && !(HEADER <= file)
  {
    if |file| < |HEADER| {
      return Some(ShortHeader);
    }
    if file[..|MAGIC|] != MAGIC {
      return Some(NotARawFile);
    }
    if file[|MAGIC|] != FILE_VERSION {
      return Some(UnsupportedVersion);
    }
    return None;
  }

  /** One record off the front, or none if reading stops here. */
  method NextRecord(data: Bytes) returns (blob: Option<Bytes>, rest: Bytes)
    ensures blob.None? <==> Records(data) == []
    ensures blob.Some? ==> Records(data) != [] && Records(data)[0] == blob.value && Records(data)[1..] == Records(rest)
    ensures blob.Some? ==> |rest| < |data|
  {
    hide GetBE;
    if |data| < 4 {
      return None, [];
    }
    var n := GetBE(data[..4]);
    if n < HDR_LEN || n > MAX_RECORD {
      return None, [];
    }
    if |data| - 4 < n {
      return None, [];
    }
    return Some(data[4..4 + n]), data[4 + n..];
  }

  lemma AddAllStep(unpacks: Unpacks, hash: Hash, capacity: int, s: Recency, blobs: seq<Bytes>)
    ensures blobs == [] ==> AddAll(unpacks, hash, capacity, s, blobs) == s
    ensures blobs != [] ==>
              var k := BlobFromFile(unpacks, blobs[0]);
              AddAll(unpacks, hash, capacity, s, blobs) ==
              AddAll(unpacks, hash, capacity, if k.Some? then Add(s, capacity, Entry(hash(k.value), blobs[0])) else s, blobs[1..])
  {
  }

  /** The steps a reader takes for a list of blobs. */
  function Restores(unpacks: Unpacks, blobs: seq<Bytes>): (ops: seq<Op>)
    ensures forall op :: op in ops ==> op.Restore? && op.blob in blobs && BlobFromFile(unpacks, op.blob).Some?
  {
    if blobs == [] then []
    else (if BlobFromFile(unpacks, blobs[0]).Some? then [Restore(blobs[0])] else []) + Restores(unpacks, blobs[1..])
  }

  lemma RestoreStep(unpacks: Unpacks, hash: Hash, capacity: int, ops: seq<Op>, b: Bytes)
    requires BlobFromFile(unpacks, b).Some?
    ensures Run(hash, capacity, ops + [Restore(b)]) ==
            Add(Run(hash, capacity, ops), capacity, Entry(hash(BlobFromFile(unpacks, b).value), b))
  {
    hide Run, Add, KeyOf, NetLen, NameLen;
    RunSnoc(hash, capacity, ops, Restore(b));
  }

  /** Reading a file is a run of such steps. */
  lemma {:induction false} AddAllIsRun(unpacks: Unpacks, hash: Hash, capacity: int, ops: seq<Op>, blobs: seq<Bytes>)
    ensures AddAll(unpacks, hash, capacity, Run(hash, capacity, ops), blobs) == Run(hash, capacity, ops + Restores(unpacks, blobs))
    decreases |blobs|
  {
    hide Add, AddAll, Run, BlobFromFile;
    AddAllStep(unpacks, hash, capacity, Run(hash, capacity, ops), blobs);
    if blobs == [] {
      assert ops + Restores(unpacks, blobs) == ops;
    } else {
      var rest := Restores(unpacks, blobs[1..]);
      if BlobFromFile(unpacks, blobs[0]).Some? {
        RestoreStep(unpacks, hash, capacity, ops, blobs[0]);
        AddAllIsRun(unpacks, hash, capacity, ops + [Restore(blobs[0])], blobs[1..]);
        assert ops + ([Restore(blobs[0])] + rest) == ops + [Restore(blobs[0])] + rest;
      } else {
        AddAllIsRun(unpacks, hash, capacity, ops, blobs[1..]);
        assert [] + rest == rest;
      }
    }
  }

  // ----- reading back what was written, cut off or whole -----

  ghost predicate Plausible(blobs: seq<Bytes>)
  {
    forall i :: 0 <= i < |blobs| ==> HDR_LEN <= |blobs[i]| <= MAX_RECORD
  }

  /** How many records lie wholly within the first n bytes. */
  function Whole(blobs: seq<Bytes>, n: nat): (w: nat)
    requires Plausible(blobs)
    ensures w <= |blobs| && |Frames(blobs[..w])| <= n
    ensures w < |blobs| ==> n < |Frames(blobs[..w + 1])|
  {
    if blobs == [] || n < 4 + |blobs[0]| then 0
    else
      var w := Whole(blobs[1..], n - 4 - |blobs[0]|);
      FramesTake(blobs, w);
      1 + w
  }

  lemma FramesTake(blobs: seq<Bytes>, w: nat)
    requires Plausible(blobs) && blobs != [] && w <= |blobs[1..]|
    ensures |Frames(blobs[..w + 1])| == 4 + |blobs[0]| + |Frames(blobs[1..][..w])|
    ensures w < |blobs[1..]| ==> |Frames(blobs[..w + 2])| == 4 + |blobs[0]| + |Frames(blobs[1..][..w + 1])|
  {
    assert blobs[..w + 1][1..] == blobs[1..][..w];
    if w < |blobs[1..]| {
      assert blobs[..w + 2][1..] == blobs[1..][..w + 1];
    }
  }

  /** A file cut off anywhere gives back exactly the records that are whole. */
  lemma {:induction false} RecordsOfFrames(blobs: seq<Bytes>, n: nat)
    requires Plausible(blobs) && n <= |Frames(blobs)|
    ensures Records(Frames(blobs)[..n]) == blobs[..Whole(blobs, n)]
    decreases |blobs|
  {
    hide PutBE, GetBE, Frames, Records, Whole;
    if blobs == [] {
      FramesEmpty();
      NoRecord(Frames(blobs)[..n]);
    } else {
      var b, rest := blobs[0], Frames(blobs[1..]);
      FramesCons(blobs);
      FirstRecord(b, rest, n);
      WholeCons(blobs, n);
      if n >= 4 + |b| {
        RecordsOfFrames(blobs[1..], n - 4 - |b|);
        assert blobs[..Whole(blobs, n)] == [b] + blobs[1..][..Whole(blobs[1..], n - 4 - |b|)];
      }
    }
  }

  lemma WholeCons(blobs: seq<Bytes>, n: nat)
    requires Plausible(blobs) && blobs != []
    ensures Whole(blobs, n) == if n < 4 + |blobs[0]| then 0 else 1 + Whole(blobs[1..], n - 4 - |blobs[0]|)
  {
    hide Frames;
  }

  lemma FramesEmpty()
    ensures Frames([]) == []
  {
  }

  lemma FramesCons(blobs: seq<Bytes>)
    requires blobs != [] && |blobs[0]| <= MAX_RECORD
    ensures Frames(blobs) == PutBE(|blobs[0]|, 4) + blobs[0] + Frames(blobs[1..])
  {
  }

  lemma FirstRecord(b: Bytes, rest: Bytes, n: nat)
    requires HDR_LEN <= |b| <= MAX_RECORD && n <= 4 + |b| + |rest|
    ensures Records((PutBE(|b|, 4) + b + rest)[..n]) ==
            if n < 4 + |b| then [] else [b] + Records(rest[..n - 4 - |b|])
  {
    hide PutBE, GetBE, Records;
    Widths();
    GetPut(|b|, 4);
    Slices(PutBE(|b|, 4), b, rest, n);
    var d := (PutBE(|b|, 4) + b + rest)[..n];
    if n < 4 + |b| {
      NoRecord(d);
    } else {
      OneRecord(d, |b|);
    }
  }

  lemma Slices(length: Bytes, b: Bytes, rest: Bytes, n: nat)
    requires |length| == 4 && n <= 4 + |b| + |rest|
    ensures
      var d := (length + b + rest)[..n];
      && (n >= 4 ==> d[..4] == length)
      && (n >= 4 + |b| ==> d[4..4 + |b|] == b && d[4 + |b|..] == rest[..n - 4 - |b|])
  {
  }

  /** The record length at the front of the data, if it is a plausible one and the record whole. */
  ghost predicate RecordAhead(data: Bytes, n: nat)
  {
    4 <= |data| && n == GetBE(data[..4]) && HDR_LEN <= n <= MAX_RECORD && n <= |data| - 4
  }

  lemma NoRecord(data: Bytes)
    requires forall n: nat :: !RecordAhead(data, n)
    ensures Records(data) == []
  {
    hide GetBE;
    assert |data| >= 4 ==> !RecordAhead(data, GetBE(data[..4]));
  }

  lemma OneRecord(data: Bytes, n: nat)
    requires RecordAhead(data, n)
    ensures Records(data) == [data[4..4 + n]] + Records(data[4 + n..])
  {
    hide GetBE;
  }

  /** Entries small enough for the file. */
  function Fitting(s: Recency): Recency
  {
    Keep(s, (e: Entry) => |e.blob| <= MAX_RECORD)
  }

  /** Skipping what does not fit is writing only what does. */
  lemma {:induction false} FramesFitting(s: Recency)
    ensures Frames(Oldest(s)) == Frames(Oldest(Fitting(s)))
  {
    if s == [] {
    } else {
      FramesFitting(s[1..]);
      FramesConcat(Oldest(s[1..]), [s[0].blob]);
      assert Frames([s[0].blob]) == Frame(s[0].blob);
      if |s[0].blob| <= MAX_RECORD {
        assert Fitting(s)[1..] == Fitting(s[1..]);
        FramesConcat(Oldest(Fitting(s[1..])), [s[0].blob]);
      }
    }
  }

  // ----- what a reader rebuilds -----

  /** Every entry is one a reader keeps, and the reader's hash tells their keys apart. */
  ghost predicate Reloadable(unpacks: Unpacks, hash: Hash, s: Recency)
  {
    && (forall i :: 0 <= i < |s| ==> BlobFromFile(unpacks, s[i].blob).Some?)
    && (forall i, j :: 0 <= i < j < |s| ==> hash(KeyOf(s[i].blob)) != hash(KeyOf(s[j].blob)))
  }

  /** The same entries in the same order, under the reader's hash. */
  ghost function Rehash(unpacks: Unpacks, hash: Hash, s: Recency): Recency
    requires Reloadable(unpacks, hash, s)
  {
    seq(|s|, i requires 0 <= i < |s| => Entry(hash(KeyOf(s[i].blob)), s[i].blob))
  }

  /** Adding entries oldest first rebuilds the list, or as much of its front as there is room for. */
  lemma {:induction false} AddAllOldest(unpacks: Unpacks, hash: Hash, capacity: int, s: Recency)
    requires Reloadable(unpacks, hash, s)
    ensures AddAll(unpacks, hash, capacity, [], Oldest(s)) == Shrink(Rehash(unpacks, hash, s), capacity)
  {
    hide BlobFromFile, KeyOf, WellSized, AddAll, Add;
    if s == [] {
      AddAllStep(unpacks, hash, capacity, [], Oldest(s));
    } else {
      var rest := s[1..];
      var e := Entry(hash(KeyOf(s[0].blob)), s[0].blob);
      AddAllOldest(unpacks, hash, capacity, rest);
      AddAllConcat(unpacks, hash, capacity, [], Oldest(rest), [s[0].blob]);
      AddAllOne(unpacks, hash, capacity, Shrink(Rehash(unpacks, hash, rest), capacity), s[0].blob);
      AddFresh(Rehash(unpacks, hash, rest), capacity, e);
      assert Rehash(unpacks, hash, s) == [e] + Rehash(unpacks, hash, rest);
    }
  }

  lemma {:induction false} AddAllConcat(unpacks: Unpacks, hash: Hash, capacity: int, s: Recency, a: seq<Bytes>, b: seq<Bytes>)
    ensures AddAll(unpacks, hash, capacity, s, a + b) ==
            AddAll(unpacks, hash, capacity, AddAll(unpacks, hash, capacity, s, a), b)
    decreases |a|
  {
    hide BlobFromFile, Add;
    if a == [] {
      assert a + b == b;
    } else {
      assert (a + b)[1..] == a[1..] + b;
      var k := BlobFromFile(unpacks, a[0]);
      AddAllConcat(unpacks, hash, capacity, if k.Some? then Add(s, capacity, Entry(hash(k.value), a[0])) else s, a[1..], b);
    }
  }

  lemma AddAllOne(unpacks: Unpacks, hash: Hash, capacity: int, s: Recency, b: Bytes)
    requires BlobFromFile(unpacks, b).Some?
    ensures AddAll(unpacks, hash, capacity, s, [b]) == Add(s, capacity, Entry(hash(KeyOf(b)), b))
  {
    hide BlobFromFile, Add, AddAll, KeyOf;
    assert [b][1..] == [];
    AddAllStep(unpacks, hash, capacity, s, [b]);
    AddAllStep(unpacks, hash, capacity, Add(s, capacity, Entry(hash(KeyOf(b)), b)), []);
  }

  /** A hash not seen before pushes nothing out but the least recent. */
  lemma AddFresh(s: Recency, capacity: int, e: Entry)
    requires forall i :: 0 <= i < |s| ==> s[i].hash != e.hash
    ensures Add(Shrink(s, capacity), capacity, e) == Shrink([e] + s, capacity)
  {
    KeepAll(Shrink(s, capacity), (x: Entry) => x.hash != e.hash);
  }

  /** What is read of a file that was cut n bytes past its header. */
  ghost function CutBody(s: Recency, n: nat): (r: Bytes)
    requires n <= |Frames(Oldest(s))|
  {
    FileOf(s)[..|HEADER| + n][|HEADER|..]
  }

  /** The entries whose records lie wholly within the first n bytes: of those that fit the format, the least recent. */
  ghost predicate WholeWithin(s: Recency, n: nat, kept: Recency)
  {
    var t := Fitting(s);
    Plausible(Oldest(t)) && kept == t[|t| - Whole(Oldest(t), n)..]
  }

  /**
   * For every cache and every cut of its file past the header: reading it into
   * an empty cache gives the entries whose records are whole, with their blobs
   * and in their order, as far as they fit.
   */
  lemma CutFileReloads(unpacks: Unpacks, hash: Hash, capacity: int, s: Recency, n: nat) returns (kept: Recency)
    requires Reloadable(unpacks, hash, Fitting(s)) && n <= |Frames(Oldest(s))|
    ensures WholeWithin(s, n, kept) && Reloadable(unpacks, hash, kept)
    ensures AddAll(unpacks, hash, capacity, [], Records(CutBody(s, n))) == Shrink(Rehash(unpacks, hash, kept), capacity)
  {
    hide *;
    kept := CutRecords(unpacks, hash, s, n);
    AddAllOldest(unpacks, hash, capacity, kept);
  }

  lemma CutRecords(unpacks: Unpacks, hash: Hash, s: Recency, n: nat) returns (kept: Recency)
    requires Reloadable(unpacks, hash, Fitting(s)) && n <= |Frames(Oldest(s))|
    ensures WholeWithin(s, n, kept) && Reloadable(unpacks, hash, kept)
    ensures Records(CutBody(s, n)) == Oldest(kept)
  {
    hide Fitting, Whole, Oldest, Plausible, Frames, Records, Reloadable, FileOf;
    var t := Fitting(s);
    FittingPlausible(unpacks, hash, s);
    FramesFitting(s);
    var w := Whole(Oldest(t), n);
    kept := t[|t| - w..];
    ReloadableTail(unpacks, hash, t, |t| - w);
    FileCut(s, n);
    RecordsOfFrames(Oldest(t), n);
    OldestTail(t, w);
  }

  lemma ReloadableTail(unpacks: Unpacks, hash: Hash, s: Recency, i: nat)
    requires Reloadable(unpacks, hash, s) && i <= |s|
    ensures Reloadable(unpacks, hash, s[i..])
  {
    hide BlobFromFile, KeyOf;
  }

  lemma FittingPlausible(unpacks: Unpacks, hash: Hash, s: Recency)
    requires Reloadable(unpacks, hash, Fitting(s))
    ensures Plausible(Oldest(Fitting(s)))
  {
    var t := Fitting(s);
    forall i | 0 <= i < |t| ensures HDR_LEN <= |t[i].blob| <= MAX_RECORD {
      assert t[i] in t;
    }
  }

  lemma OldestTail(s: Recency, w: nat)
    requires w <= |s|
    ensures Oldest(s)[..w] == Oldest(s[|s| - w..])
  {
    hide Oldest;
    var t, u := Oldest(s)[..w], Oldest(s[|s| - w..]);
    assert |t| == |u|;
    forall i | 0 <= i < w ensures t[i] == u[i] {
      assert t[i] == Oldest(s)[i] == s[|s| - 1 - i].blob;
      assert u[i] == s[|s| - w..][w - 1 - i].blob;
    }
  }

  // ----- caches that runs produce -----

  /** Everything a run writes is something a reader keeps. */
  ghost predicate Sound(unpacks: Unpacks, ops: seq<Op>)
  {
    forall i :: 0 <= i < |ops| && Written(ops[i]).Some? ==> BlobFromFile(unpacks, Written(ops[i]).value.1).Some?
  }

  /** A stored blob is kept by a reader exactly if its message unpacks and its name is not empty. */
  lemma StoredUsable(unpacks: Unpacks, k: Key, m: Meta, wire: Bytes)
    requires Encodable(k)
    ensures BlobFromFile(unpacks, Encode(k, m, wire)) == if unpacks(wire) && k.name != [] then Some(k) else None
  {
    hide Encode, GetBE;
    RoundTrip(k, m, wire);
  }

  /** Every entry was written by some operation. */
  lemma {:induction false} RunOrigin(hash: Hash, capacity: int, ops: seq<Op>, e: Entry) returns (i: nat)
    requires e in Run(hash, capacity, ops)
    ensures WellSized(e.blob) && e.hash == hash(KeyOf(e.blob))
    ensures i < |ops| && Written(ops[i]) == Some((KeyOf(e.blob), e.blob))
    ensures KeyOf(e.blob) in WrittenKeys(ops)
  {
    hide Written, KeyOf, WellSized, Keep;
    var front, op := ops[..|ops| - 1], ops[|ops| - 1];
    var s := Run(hash, capacity, front);
    if Written(op).Some? {
      WrittenKey(op);
      WritingStep(hash, capacity, s, op);
    } else {
      NoWrite(hash, capacity, s, op, e);
    }
    if Written(op).Some? && e == Entry(hash(Written(op).value.0), Written(op).value.1) {
      i := |ops| - 1;
    } else {
      i := RunOrigin(hash, capacity, front, e);
    }
  }

  /** Whatever run filled a cache, a reader whose hash tells the keys written apart can reload all of it. */
  lemma RunReloadable(unpacks: Unpacks, hash: Hash, capacity: int, ops: seq<Op>, hash': Hash)
    requires Sound(unpacks, ops) && Apart(hash', WrittenKeys(ops))
    ensures Reloadable(unpacks, hash', Fitting(Run(hash, capacity, ops)))
  {
    hide BlobFromFile, KeyOf, Run, Keep, Written, WrittenKeys, WellSized;
    var s := Run(hash, capacity, ops);
    var t := Fitting(s);
    RunKeeps(hash, capacity, ops);
    DistinctKeep(s, (e: Entry) => |e.blob| <= MAX_RECORD);
    forall i | 0 <= i < |t|
      ensures BlobFromFile(unpacks, t[i].blob).Some? && WellSized(t[i].blob)
      ensures t[i].hash == hash(KeyOf(t[i].blob)) && KeyOf(t[i].blob) in WrittenKeys(ops)
    {
      assert t[i] in t;
      var j := RunOrigin(hash, capacity, ops, t[i]);
    }
  }

  /** So a cache filled by any run comes back from its file: every entry that fits the format, most recent first. */
  lemma RunReloads(unpacks: Unpacks, hash: Hash, capacity: int, ops: seq<Op>, hash': Hash, capacity': int)
    requires Sound(unpacks, ops) && Apart(hash', WrittenKeys(ops))
    ensures
      var s := Run(hash, capacity, ops);
      && Reloadable(unpacks, hash', Fitting(s))
      && AddAll(unpacks, hash', capacity', [], Records(FileOf(s)[|HEADER|..])) ==
         Shrink(Rehash(unpacks, hash', Fitting(s)), capacity')
  {
    hide *;
    var s := Run(hash, capacity, ops);
    var t := Fitting(s);
    RunReloadable(unpacks, hash, capacity, ops, hash');
    var n := |Frames(Oldest(s))|;
    var kept := CutFileReloads(unpacks, hash', capacity', s, n);
    AllWithin(s, kept);
    UncutBody(s);
  }

  lemma AllWithin(s: Recency, kept: Recency)
    requires WholeWithin(s, |Frames(Oldest(s))|, kept)
    ensures kept == Fitting(s)
  {
    hide Fitting, Whole, Oldest, Plausible, Frames;
    FramesFitting(s);
    FullyWhole(Oldest(Fitting(s)));
  }

  lemma UncutBody(s: Recency)
    ensures CutBody(s, |Frames(Oldest(s))|) == FileOf(s)[|HEADER|..]
  {
    hide Oldest, Frames, FileOf;
    FileCut(s, |Frames(Oldest(s))|);
  }

  lemma FullyWhole(blobs: seq<Bytes>)
    requires Plausible(blobs)
    ensures Whole(blobs, |Frames(blobs)|) == |blobs|
  {
    hide Whole, Frames;
    var w := Whole(blobs, |Frames(blobs)|);
    if w < |blobs| {
      FramesShorter(blobs, w + 1);
      assert false;
    }
  }

  lemma FramesShorter(blobs: seq<Bytes>, w: nat)
    requires w <= |blobs|
    ensures |Frames(blobs[..w])| <= |Frames(blobs)|
  {
    hide Frames;
    assert blobs == blobs[..w] + blobs[w..];
    FramesConcat(blobs[..w], blobs[w..]);
  }
}
