/**
 * The memory cache as an abstract recency sequence: what each operation of the
 * LRU cache does to the list of its entries, most recent first, and what holds
 * over every run of operations.
 */
module RecencyCache {
  import opened Octets
  import opened CacheBlob

  /** An entry: the hash it is indexed by and its blob. */
  datatype Entry = Entry(hash: uint64, blob: Bytes)

  type Recency = seq<Entry>

  ghost predicate Distinct(s: Recency)
  {
    forall i, j :: 0 <= i < j < |s| ==> s[i].hash != s[j].hash
  }

  /** The entry indexed under a hash. */
  function Find(s: Recency, h: uint64): (r: Option<Entry>)
    ensures r.Some? ==> r.value in s && r.value.hash == h
    ensures r.None? ==> forall e :: e in s ==> e.hash != h
  {
    if s == [] then None
    else if s[0].hash == h then Some(s[0])
    else Find(s[1..], h)
  }

  /** The entries that pass a test, in order. */
  function Keep(s: Recency, p: Entry -> bool): (r: Recency)
    ensures forall e :: e in r <==> e in s && p(e)
    ensures |r| <= |s|
  {
    if s == [] then []
    else if p(s[0]) then [s[0]] + Keep(s[1..], p)
    else Keep(s[1..], p)
  }

  lemma {:induction false} KeepAll(s: Recency, p: Entry -> bool)
    requires forall e :: e in s ==> p(e)
    ensures Keep(s, p) == s
  {
    if s == [] {
    } else {
      KeepAll(s[1..], p);
    }
  }

  lemma {:induction false} KeepConcat(a: Recency, b: Recency, p: Entry -> bool)
    ensures Keep(a + b, p) == Keep(a, p) + Keep(b, p)
  {
    if a == [] {
      assert a + b == b;
    } else {
      assert (a + b)[1..] == a[1..] + b;
      KeepConcat(a[1..], b, p);
    }
  }

  /** All entries but those under a hash. */
  function Remove(s: Recency, h: uint64): Recency
  {
    Keep(s, (e: Entry) => e.hash != h)
  }

  /** The most recent entries that fit; a capacity of zero or less means no limit. */
  function Shrink(s: Recency, capacity: int): Recency
  {
    if 0 < capacity < |s| then s[..capacity] else s
  }

  /** addKey: the entry goes to the front, whatever was under its hash is gone, the least recent drop out. */
  function Add(s: Recency, capacity: int, e: Entry): Recency
  {
    Shrink([e] + Remove(s, e.hash), capacity)
  }

  /** find: an indexed entry counts only if its blob matches the key. */
  function FindKey(s: Recency, h: uint64, k: Key): (r: Option<Entry>)
    ensures r.Some? ==> r.value in s && r.value.hash == h && MatchesKey(r.value.blob, k)
  {
    var r := Find(s, h);
    if r.Some? && MatchesKey(r.value.blob, k) then r else None
  }

  /** touch */
  function Touch(s: Recency, h: uint64, k: Key): Recency
  {
    match FindKey(s, h, k)
    case None => s
    case Some(e) => [e] + Remove(s, h)
  }

  /** delete */
  function Delete(s: Recency, h: uint64, k: Key): Recency
  {
    if FindKey(s, h, k).Some? then Remove(s, h) else s
  }

  /** deleteFunc */
  function Sweep(s: Recency, drop: Bytes -> bool): Recency
  {
    Keep(s, (e: Entry) => !drop(e.blob))
  }

  // ----- runs -----

  datatype Op =
    | Store(key: Key, meta: Meta, wire: Bytes)
    | Restore(blob: Bytes)           // from a cache file
    | Lookup(key: Key)
    | Evict(key: Key)
    | Flush
    | Collect(drop: Bytes -> bool)

  type Hash = Key -> uint64

  function Step(hash: Hash, capacity: int, s: Recency, op: Op): Recency
  {
    match op
    case Store(k, m, w) => if Encodable(k) then Add(s, capacity, Entry(hash(k), Encode(k, m, w))) else s
    case Restore(b) => if WellSized(b) then Add(s, capacity, Entry(hash(KeyOf(b)), b)) else s
    case Lookup(k) => Touch(s, hash(k), k)
    case Evict(k) => Delete(s, hash(k), k)
    case Flush => []
    case Collect(drop) => Sweep(s, drop)
  }

  function Run(hash: Hash, capacity: int, ops: seq<Op>): Recency
  {
    if ops == [] then [] else Step(hash, capacity, Run(hash, capacity, ops[..|ops| - 1]), ops[|ops| - 1])
  }

  lemma RunSnoc(hash: Hash, capacity: int, ops: seq<Op>, op: Op)
    ensures Run(hash, capacity, ops + [op]) == Step(hash, capacity, Run(hash, capacity, ops), op)
  {
    assert (ops + [op])[..|ops|] == ops;
  }

  /** What an operation puts under which key, if anything. */
  function Written(op: Op): Option<(Key, Bytes)>
  {
    match op
    case Store(k, m, w) => if Encodable(k) then Some((k, Encode(k, m, w))) else None
    case Restore(b) => if WellSized(b) then Some((KeyOf(b), b)) else None
    case _ => None
  }

  /** A blob as its key would find it. */
  function Shown(b: Bytes, k: Key): Option<Bytes>
  {
    if MatchesKey(b, k) then Some(b) else None
  }

  /** What was written last under a key since it was last taken out. */
  function LastStored(ops: seq<Op>, k: Key): Option<Bytes>
  {
    if ops == [] then None
    else
      var front, op := LastStored(ops[..|ops| - 1], k), ops[|ops| - 1];
      if Written(op).Some? then
        if Written(op).value.0 == k then Shown(Written(op).value.1, k) else front
      else TakenOut(op, k, front)
  }

  /** What operations that write nothing leave of an entry. */
  function TakenOut(op: Op, k: Key, was: Option<Bytes>): Option<Bytes>
  {
    match op
    case Evict(k') => if k' == k then None else was
    case Flush => None
    case Collect(drop) => if was.Some? && drop(was.value) then None else was
    case _ => was
  }

  // ----- the invariant of every run -----

  /** Whatever the cache holds is indexed by its own key's hash and, if its key finds it at all, was written last under it. */
  ghost predicate Holds(hash: Hash, ops: seq<Op>, e: Entry)
  {
    && WellSized(e.blob) && e.hash == hash(KeyOf(e.blob))
    && (MatchesKey(e.blob, KeyOf(e.blob)) ==> LastStored(ops, KeyOf(e.blob)) == Some(e.blob))
  }

  lemma WrittenKey(op: Op)
    requires Written(op).Some?
    ensures
      var (k, b) := Written(op).value;
      WellSized(b) && KeyOf(b) == k && forall k' :: MatchesKey(b, k') ==> k' == k
  {
    hide Encode, GetBE;
    var (k, b) := Written(op).value;
    if op.Store? {
      RoundTrip(op.key, op.meta, op.wire);
    }
    forall k' | MatchesKey(b, k') ensures k' == k {
      MatchesIff(b, k');
    }
  }

  lemma {:induction false} DistinctKeep(s: Recency, p: Entry -> bool)
    requires Distinct(s)
    ensures Distinct(Keep(s, p))
  {
    if s == [] {
    } else {
      assert Distinct(s[1..]) && forall e :: e in s[1..] ==> e.hash != s[0].hash;
      DistinctKeep(s[1..], p);
      ConsDistinct(s[0], Keep(s[1..], p));
    }
  }

  lemma ConsDistinct(x: Entry, rest: Recency)
    requires Distinct(rest) && forall e :: e in rest ==> e.hash != x.hash
    ensures Distinct([x] + rest)
  {
  }

  /** Removing a hash that is there takes exactly one entry away. */
  lemma {:induction false} RemoveOne(s: Recency, h: uint64)
    requires Distinct(s)
    ensures |Remove(s, h)| == if Find(s, h).Some? then |s| - 1 else |s|
    ensures Find(s, h).None? ==> Remove(s, h) == s
  {
    if s == [] {
    } else {
      RemoveOne(s[1..], h);
      if s[0].hash == h {
        assert forall e :: e in s[1..] ==> e.hash != h;
      }
    }
  }

  /** Every step keeps hashes distinct and the size within the capacity. */
  lemma StepKeeps(hash: Hash, capacity: int, s: Recency, op: Op)
    requires Distinct(s) && (capacity > 0 ==> |s| <= capacity)
    ensures Distinct(Step(hash, capacity, s, op)) && (capacity > 0 ==> |Step(hash, capacity, s, op)| <= capacity)
  {
    hide Find, MatchesKey, Encode;
    match op {
      case Store(k, m, w) =>
        AddKeeps(s, capacity, Entry(hash(k), Encode(k, m, w)));
      case Restore(b) =>
        if WellSized(b) { AddKeeps(s, capacity, Entry(hash(KeyOf(b)), b)); }
      case Lookup(k) =>
        if FindKey(s, hash(k), k).Some? { FrontKeeps(s, FindKey(s, hash(k), k).value); }
        RemoveOne(s, hash(k));
      case Evict(k) =>
        DistinctKeep(s, (e: Entry) => e.hash != hash(k));
      case Flush =>
      case Collect(drop) =>
        DistinctKeep(s, (e: Entry) => !drop(e.blob));
    }
  }

  lemma AddKeeps(s: Recency, capacity: int, e: Entry)
    requires Distinct(s)
    ensures Distinct(Add(s, capacity, e)) && (capacity > 0 ==> |Add(s, capacity, e)| <= capacity)
  {
    FrontKeeps(s, e);
  }

  /** Putting an entry in front in place of what was under its hash. */
  lemma FrontKeeps(s: Recency, e: Entry)
    requires Distinct(s)
    ensures Distinct([e] + Remove(s, e.hash))
  {
    DistinctKeep(s, (x: Entry) => x.hash != e.hash);
    ConsDistinct(e, Remove(s, e.hash));
  }

  lemma {:induction false} RunKeeps(hash: Hash, capacity: int, ops: seq<Op>)
    ensures Distinct(Run(hash, capacity, ops)) && (capacity > 0 ==> |Run(hash, capacity, ops)| <= capacity)
  {
    if ops == [] {
    } else {
      RunKeeps(hash, capacity, ops[..|ops| - 1]);
      StepKeeps(hash, capacity, Run(hash, capacity, ops[..|ops| - 1]), ops[|ops| - 1]);
    }
  }

  lemma FindUnique(s: Recency, e: Entry)
    requires Distinct(s) && e in s
    ensures Find(s, e.hash) == Some(e)
  {
    var f := Find(s, e.hash).value;
    var i :| 0 <= i < |s| && s[i] == e;
    var j :| 0 <= j < |s| && s[j] == f;
  }

  /** A writing step is an addition. */
  lemma WritingStep(hash: Hash, capacity: int, s: Recency, op: Op)
    requires Written(op).Some?
    ensures Step(hash, capacity, s, op) == Add(s, capacity, Entry(hash(Written(op).value.0), Written(op).value.1))
  {
  }

  /** One step keeps the invariant for an entry that was there before, or is the one written. */
  lemma StepHolds(hash: Hash, capacity: int, s: Recency, front: seq<Op>, op: Op, e: Entry)
    requires Distinct(s) && forall x :: x in s ==> Holds(hash, front, x)
    requires e in Step(hash, capacity, s, op)
    ensures Holds(hash, front + [op], e)
  {
    hide Keep, Find, MatchesKey, Encode, KeyOf, WellSized, Written;
    var ops := front + [op];
    assert ops[..|ops| - 1] == front;
    if Written(op).Some? {
      WrittenKey(op);
      WritingStep(hash, capacity, s, op);
      assert e == Entry(hash(Written(op).value.0), Written(op).value.1) || (e in s && e.hash != hash(Written(op).value.0));
    } else {
      NoWrite(hash, capacity, s, op, e);
      if op.Evict? && op.key == KeyOf(e.blob) && MatchesKey(e.blob, op.key) {
        FindUnique(s, e);
        assert false;
      }
    }
  }

  /** Other steps only take out or reorder. */
  lemma NoWrite(hash: Hash, capacity: int, s: Recency, op: Op, e: Entry)
    requires Written(op).None? && e in Step(hash, capacity, s, op)
    ensures e in s && (op.Collect? ==> !op.drop(e.blob)) && !op.Flush?
    ensures op.Evict? && FindKey(s, hash(op.key), op.key).Some? ==> e.hash != hash(op.key)
  {
    hide Find, MatchesKey, KeyOf, Encode;
  }

  lemma {:induction false} RunHolds(hash: Hash, capacity: int, ops: seq<Op>)
    ensures forall e :: e in Run(hash, capacity, ops) ==> Holds(hash, ops, e)
  {
    hide Holds, Step, Distinct;
    if ops == [] {
    } else {
      var front, op := ops[..|ops| - 1], ops[|ops| - 1];
      RunHolds(hash, capacity, front);
      RunKeeps(hash, capacity, front);
      forall e | e in Run(hash, capacity, ops) ensures Holds(hash, ops, e) {
        StepHolds(hash, capacity, Run(hash, capacity, front), front, op, e);
        assert ops == front + [op];
      }
    }
  }

  /**
   * For every run, every capacity and every hash, collisions or not: a lookup
   * that finds something finds what was last stored under that very key.
   */
  lemma LookupSound(hash: Hash, capacity: int, ops: seq<Op>, k: Key)
    requires FindKey(Run(hash, capacity, ops), hash(k), k).Some?
    ensures LastStored(ops, k) == Some(FindKey(Run(hash, capacity, ops), hash(k), k).value.blob)
  {
    hide LastStored, Run;
    RunHolds(hash, capacity, ops);
    MatchesIff(FindKey(Run(hash, capacity, ops), hash(k), k).value.blob, k);
  }

  // ----- without a size limit -----

  /** What collisions leave of a key: the last write under its hash counts, whosever it was. */
  function Visible(hash: Hash, ops: seq<Op>, k: Key): Option<Bytes>
  {
    if ops == [] then None
    else
      var front, op := Visible(hash, ops[..|ops| - 1], k), ops[|ops| - 1];
      if Written(op).Some? then
        if hash(Written(op).value.0) == hash(k) then Shown(Written(op).value.1, k) else front
      else TakenOut(op, k, front)
  }

  function BlobFor(s: Recency, h: uint64, k: Key): Option<Bytes>
  {
    match Find(s, h)
    case None => None
    case Some(e) => Shown(e.blob, k)
  }

  /** Keeping entries by a test keeps what is found, if it passes. */
  lemma {:induction false} FindKeep(s: Recency, p: Entry -> bool, h: uint64)
    requires Distinct(s)
    ensures Find(Keep(s, p), h) == if Find(s, h).Some? && p(Find(s, h).value) then Find(s, h) else None
  {
    if s == [] {
    } else {
      FindKeep(s[1..], p, h);
      assert forall e :: e in s[1..] ==> e.hash != s[0].hash;
      if p(s[0]) {
        assert ([s[0]] + Keep(s[1..], p))[1..] == Keep(s[1..], p);
      }
    }
  }

  /** One entry in front, whatever its hash indexed gone: only that hash looks different. */
  lemma FindFront(s: Recency, e: Entry, h: uint64)
    requires Distinct(s)
    ensures Find([e] + Remove(s, e.hash), h) == if h == e.hash then Some(e) else Find(s, h)
  {
    hide Keep;
    FindKeep(s, (x: Entry) => x.hash != e.hash, h);
    assert ([e] + Remove(s, e.hash))[1..] == Remove(s, e.hash);
  }

  /** For every hash, a cache without a limit shows exactly what collisions leave. */
  lemma {:induction false} UnlimitedExact(hash: Hash, ops: seq<Op>, k: Key)
    ensures BlobFor(Run(hash, 0, ops), hash(k), k) == Visible(hash, ops, k)
  {
    hide Find, Keep, MatchesKey, Encode, KeyOf, WellSized, Written;
    if ops == [] {
    } else {
      var front, op := ops[..|ops| - 1], ops[|ops| - 1];
      var s := Run(hash, 0, front);
      UnlimitedExact(hash, front, k);
      RunKeeps(hash, 0, front);
      if Written(op).Some? {
        var e := Entry(hash(Written(op).value.0), Written(op).value.1);
        WritingStep(hash, 0, s, op);
        FindFront(s, e, hash(k));
      } else {
        RunHolds(hash, 0, front);
        QuietStep(hash, front, s, op, k);
      }
    }
  }

  lemma QuietStep(hash: Hash, front: seq<Op>, s: Recency, op: Op, k: Key)
    requires Distinct(s) && Written(op).None? && forall e :: e in s ==> Holds(hash, front, e)
    ensures BlobFor(Step(hash, 0, s, op), hash(k), k) == TakenOut(op, k, BlobFor(s, hash(k), k))
  {
    hide Find, Keep, MatchesKey, Encode, KeyOf, WellSized, LastStored;
    match op {
      case Store(_, _, _) => UnwrittenStep(hash, s, op);
      case Restore(_) => UnwrittenStep(hash, s, op);
      case Lookup(k') =>
        if FindKey(s, hash(k'), k').Some? { FindFront(s, FindKey(s, hash(k'), k').value, hash(k)); }
      case Evict(k') =>
        FindKeep(s, (e: Entry) => e.hash != hash(k'), hash(k));
        if FindKey(s, hash(k'), k').Some? {
          OneKey(FindKey(s, hash(k'), k').value.blob, k, k');
        }
      case Flush =>
      case Collect(drop) => FindKeep(s, (e: Entry) => !drop(e.blob), hash(k));
    }
  }

  lemma UnwrittenStep(hash: Hash, s: Recency, op: Op)
    requires Written(op).None? && (op.Store? || op.Restore?)
    ensures Step(hash, 0, s, op) == s
  {
  }

  /** A blob matches at most one key. */
  lemma OneKey(b: Bytes, k: Key, k': Key)
    ensures MatchesKey(b, k) && MatchesKey(b, k') ==> k == k'
  {
    MatchesIff(b, k);
    MatchesIff(b, k');
  }

  /** The keys a run writes. */
  function WrittenKeys(ops: seq<Op>): set<Key>
  {
    if ops == [] then {}
    else
      var op := ops[|ops| - 1];
      WrittenKeys(ops[..|ops| - 1]) + if Written(op).Some? then {Written(op).value.0} else {}
  }

  /** No other key written shares the hash of this one. */
  ghost predicate Unrivalled(hash: Hash, ops: seq<Op>, k: Key)
  {
    forall k' :: k' in WrittenKeys(ops) && hash(k') == hash(k) ==> k' == k
  }

  /** Then nothing is lost to collisions: a lookup finds exactly what was last stored. */
  lemma {:induction false} UnrivalledExact(hash: Hash, ops: seq<Op>, k: Key)
    requires Unrivalled(hash, ops, k)
    ensures BlobFor(Run(hash, 0, ops), hash(k), k) == Visible(hash, ops, k) == LastStored(ops, k)
  {
    hide Find, MatchesKey, Encode, KeyOf, Written, Run;
    UnlimitedExact(hash, ops, k);
    if ops == [] {
    } else {
      UnrivalledExact(hash, ops[..|ops| - 1], k);
    }
  }

  /** Keys that a hash tells apart. */
  ghost predicate Apart(hash: Hash, keys: set<Key>)
  {
    forall k, k' :: k in keys && k' in keys && hash(k) == hash(k') ==> k == k'
  }

  /** Where two keys share a hash, storing the second loses the first. */
  lemma CollisionLoses(hash: Hash, k: Key, k': Key, m: Meta, w: Bytes)
    requires Encodable(k) && Encodable(k') && k != k' && hash(k) == hash(k')
    ensures
      var ops := [Store(k, m, w), Store(k', m, w)];
      LastStored(ops, k).Some? && BlobFor(Run(hash, 0, ops), hash(k), k).None?
  {
    hide MatchesKey, Encode, Run, BlobFor;
    var ops := [Store(k, m, w), Store(k', m, w)];
    assert ops[..1] == [Store(k, m, w)] && ops[..1][..0] == [];
    UnlimitedExact(hash, ops, k);
    BuiltMatches(k, m, w, k);
    BuiltMatches(k', m, w, k);
  }

  /** A hash by the length of the name. */
  function LengthHash(k: Key): uint64
  {
    |k.name| % TWO_64
  }

  function NamedKey(name: Bytes): Key
  {
    Key(name, 1, 1, [], false, false, 0)
  }

  /** Keys apart do occur: two names of different length under that hash, of which a cache for one entry keeps the second. */
  lemma KeysApart(m: Meta, w: Bytes)
    ensures
      var k, k' := NamedKey([97]), NamedKey([97, 98]);
      var ops := [Store(k, m, w), Store(k', m, w)];
      && WrittenKeys(ops) == {k, k'} && k != k' && Apart(LengthHash, WrittenKeys(ops))
      && Unrivalled(LengthHash, ops, k) && Unrivalled(LengthHash, ops, k')
      && Run(LengthHash, 1, ops) == [Entry(2, Encode(k', m, w))]
      && Run(LengthHash, 2, ops) == [Entry(2, Encode(k', m, w)), Entry(1, Encode(k, m, w))]
  {
    hide Encode;
    var k, k' := NamedKey([97]), NamedKey([97, 98]);
    var ops := [Store(k, m, w), Store(k', m, w)];
    assert ops[..1] == [Store(k, m, w)] && ops[..1][..0] == [];
    assert WrittenKeys(ops[..1]) == {k};
    assert WrittenKeys(ops) == {k, k'};
    var e, e' := Entry(1, Encode(k, m, w)), Entry(2, Encode(k', m, w));
    assert Remove([e], 2) == [e];
    assert Run(LengthHash, 1, ops[..1]) == [e] && Run(LengthHash, 2, ops[..1]) == [e];
    assert [e'] + [e] == [e', e] && [e', e][..1] == [e'];
  }

  // ----- inclusion -----

  ghost predicate Subsequence(a: Recency, b: Recency)
  {
    if a == [] then true
    else if b == [] then false
    else if a[0] == b[0] then Subsequence(a[1..], b[1..])
    else Subsequence(a, b[1..])
  }

  lemma {:induction false} SubsequenceTail(a: Recency, b: Recency)
    requires a != [] && Subsequence(a, b)
    ensures Subsequence(a[1..], b)
    decreases |b|
  {
    if a[0] == b[0] {
      if |a| > 1 && a[1] != b[0] {
      } else if |a| > 1 {
        SubsequenceTail(a[1..], b[1..]);
      }
    } else {
      SubsequenceTail(a, b[1..]);
      if |a| > 1 && a[1] == b[0] {
        SubsequenceTail(a[1..], b[1..]);
      }
    }
  }

  /** An entry in front of the longer one does no harm. */
  lemma SubsequenceFront(a: Recency, b: Recency, e: Entry)
    requires Subsequence(a, b)
    ensures Subsequence(a, [e] + b)
  {
    if a != [] && a[0] == e {
      SubsequenceTail(a, b);
    }
  }

  lemma {:induction false} SubsequenceMembers(a: Recency, b: Recency)
    requires Subsequence(a, b)
    ensures forall e :: e in a ==> e in b
    ensures |a| <= |b|
    decreases |b|
  {
    if a == [] {
    } else {
      assert a == [a[0]] + a[1..] && b == [b[0]] + b[1..];
      if a[0] == b[0] {
        SubsequenceMembers(a[1..], b[1..]);
      } else {
        SubsequenceMembers(a, b[1..]);
      }
    }
  }

  lemma {:induction false} SubsequenceKeep(a: Recency, b: Recency, p: Entry -> bool)
    requires Subsequence(a, b)
    ensures Subsequence(Keep(a, p), Keep(b, p)) && |Keep(b, p)| - |Keep(a, p)| <= |b| - |a|
    decreases |b|
  {
    SubsequenceMembers(a, b);
    if a != [] {
      if a[0] == b[0] {
        SubsequenceKeep(a[1..], b[1..], p);
      } else {
        SubsequenceKeep(a, b[1..], p);
        if p(b[0]) { SubsequenceFront(Keep(a, p), Keep(b[1..], p), b[0]); }
      }
    } else if b != [] {
      SubsequenceKeep(a, b[1..], p);
    }
  }

  /** Dropping the last of the shorter one, or of both. */
  lemma {:induction false} SubsequenceDrop(a: Recency, b: Recency)
    requires a != [] && Subsequence(a, b)
    ensures b != [] && Subsequence(a[..|a| - 1], b[..|b| - 1])
    ensures Subsequence(a[..|a| - 1], b)
    decreases |b|
  {
    var a', b' := a[..|a| - 1], b[..|b| - 1];
    SubsequenceMembers(a, b);
    if a[0] == b[0] {
      if |a| > 1 {
        SubsequenceDrop(a[1..], b[1..]);
        assert a'[1..] == a[1..][..|a| - 2] && b'[1..] == b[1..][..|b| - 2];
      }
    } else {
      SubsequenceDrop(a, b[1..]);
      SubsequenceMembers(a, b[1..]);
      assert b'[1..] == b[1..][..|b| - 2];
    }
  }

  ghost predicate NoLarger(c1: int, c2: int)
  {
    c2 <= 0 || 0 < c1 <= c2
  }

  /** The smaller cache's list inside the larger one's, with no more entries missing than the capacities differ by. */
  ghost predicate Includes(c1: int, c2: int, a: Recency, b: Recency)
  {
    && Subsequence(a, b) && Distinct(a) && Distinct(b)
    && (c1 > 0 ==> |a| <= c1)
    && (c2 > 0 ==> |b| <= c2 && |b| - |a| <= c2 - c1)
  }

  lemma AddIncludes(c1: int, c2: int, a: Recency, b: Recency, e: Entry)
    requires NoLarger(c1, c2) && Includes(c1, c2, a, b)
    ensures Includes(c1, c2, Add(a, c1, e), Add(b, c2, e))
  {
    hide Keep, Find;
    SubsequenceKeep(a, b, (x: Entry) => x.hash != e.hash);
    AddKeeps(a, c1, e);
    AddKeeps(b, c2, e);
    var a', b' := [e] + Remove(a, e.hash), [e] + Remove(b, e.hash);
    assert a'[1..] == Remove(a, e.hash) && b'[1..] == Remove(b, e.hash);
    assert Subsequence(a', b');
    RemoveOne(a, e.hash);
    RemoveOne(b, e.hash);
    SubsequenceDrop(a', b');
  }

  /** Both caches find the same under a hash, if the smaller one finds anything. */
  lemma SameFound(c1: int, c2: int, a: Recency, b: Recency, h: uint64)
    requires Includes(c1, c2, a, b)
    ensures Find(a, h).Some? ==> Find(b, h) == Find(a, h)
  {
    SubsequenceMembers(a, b);
    if Find(a, h).Some? {
      FindUnique(b, Find(a, h).value);
    }
  }

  lemma TouchIncludes(c1: int, c2: int, a: Recency, b: Recency, h: uint64, k: Key)
    requires NoLarger(c1, c2) && Includes(c1, c2, a, b)
    ensures Includes(c1, c2, Touch(a, h, k), Touch(b, h, k))
  {
    hide Keep, MatchesKey, Find;
    var fa, fb := Find(a, h), Find(b, h);
    SameFound(c1, c2, a, b, h);
    SubsequenceKeep(a, b, (x: Entry) => x.hash != h);
    RemoveOne(a, h);
    RemoveOne(b, h);
    if fa.Some? {
      FrontKeeps(a, fa.value);
      FrontKeeps(b, fb.value);
      var a', b' := [fa.value] + Remove(a, h), [fb.value] + Remove(b, h);
      assert a'[1..] == Remove(a, h) && b'[1..] == Remove(b, h);
    } else if fb.Some? {
      FrontKeeps(b, fb.value);
      SubsequenceFront(a, Remove(b, h), fb.value);
    }
  }

  lemma DeleteIncludes(c1: int, c2: int, a: Recency, b: Recency, h: uint64, k: Key)
    requires Includes(c1, c2, a, b)
    ensures Includes(c1, c2, Delete(a, h, k), Delete(b, h, k))
  {
    hide Keep, MatchesKey, Find, Includes;
    SameFound(c1, c2, a, b, h);
    RemoveIncludes(c1, c2, a, b, (e: Entry) => e.hash != h);
    if Find(a, h).None? {
      IncludesDistinct(c1, c2, a, b);
      RemoveOne(a, h);
    }
  }

  lemma IncludesDistinct(c1: int, c2: int, a: Recency, b: Recency)
    requires Includes(c1, c2, a, b)
    ensures Distinct(a) && Distinct(b)
  {
  }

  lemma RemoveIncludes(c1: int, c2: int, a: Recency, b: Recency, p: Entry -> bool)
    requires Includes(c1, c2, a, b)
    ensures Includes(c1, c2, Keep(a, p), Keep(b, p))
  {
    SubsequenceKeep(a, b, p);
    DistinctKeep(a, p);
    DistinctKeep(b, p);
  }

  lemma StepIncludes(hash: Hash, c1: int, c2: int, a: Recency, b: Recency, op: Op)
    requires NoLarger(c1, c2) && Includes(c1, c2, a, b)
    ensures Includes(c1, c2, Step(hash, c1, a, op), Step(hash, c2, b, op))
  {
    hide Keep, Find, MatchesKey, Encode, KeyOf, WellSized, Includes, Add, Touch, Delete;
    match op {
      case Store(k, m, w) => AddIncludes(c1, c2, a, b, Entry(hash(k), Encode(k, m, w)));
      case Restore(x) => if WellSized(x) { AddIncludes(c1, c2, a, b, Entry(hash(KeyOf(x)), x)); }
      case Lookup(k) => TouchIncludes(c1, c2, a, b, hash(k), k);
      case Evict(k) => DeleteIncludes(c1, c2, a, b, hash(k), k);
      case Flush => EmptyIncludes(c1, c2);
      case Collect(drop) => RemoveIncludes(c1, c2, a, b, (e: Entry) => !drop(e.blob));
    }
  }

  /**
   * LRU inclusion: for the same run and any hash, collisions or not, the smaller
   * cache's entries are a subsequence of the larger one's.
   */
  lemma {:induction false} Inclusion(hash: Hash, c1: int, c2: int, ops: seq<Op>)
    requires NoLarger(c1, c2)
    ensures Includes(c1, c2, Run(hash, c1, ops), Run(hash, c2, ops))
  {
    hide Includes, Step;
    if ops == [] {
      EmptyIncludes(c1, c2);
    } else {
      var front := ops[..|ops| - 1];
      Inclusion(hash, c1, c2, front);
      StepIncludes(hash, c1, c2, Run(hash, c1, front), Run(hash, c2, front), ops[|ops| - 1]);
    }
  }

  lemma EmptyIncludes(c1: int, c2: int)
    requires NoLarger(c1, c2)
    ensures Includes(c1, c2, [], [])
  {
  }

  /** So the larger cache never misses where the smaller one hits, and it answers the same. */
  lemma LargerNeverMisses(hash: Hash, c1: int, c2: int, ops: seq<Op>, k: Key)
    requires NoLarger(c1, c2) && FindKey(Run(hash, c1, ops), hash(k), k).Some?
    ensures FindKey(Run(hash, c2, ops), hash(k), k) == FindKey(Run(hash, c1, ops), hash(k), k)
  {
    Inclusion(hash, c1, c2, ops);
    SameFound(c1, c2, Run(hash, c1, ops), Run(hash, c2, ops), hash(k));
  }
}
