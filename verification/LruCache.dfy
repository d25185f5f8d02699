/**
 * The LRU cache on the heap: a doubly linked list with two sentinels and an
 * index by key hash, shown to do what the abstract recency sequence does.
 */
module LruCache {
  import opened Octets
  import opened CacheBlob
  import opened RecencyCache

  class Item {
    var prev: Item?
    var next: Item?
    const hash: uint64
    var blob: Bytes

    constructor (hash: uint64, blob: Bytes)
      ensures this.hash == hash && this.blob == blob
    {
      this.hash, this.blob := hash, blob;
      prev, next := null, null;
    }
  }

  // ----- lists of items -----

  ghost predicate NoDuplicates(ring: seq<Item>)
  {
    forall i, j :: 0 <= i < j < |ring| ==> ring[i] != ring[j]
  }

  /** Neighbours point at each other. */
  ghost predicate Linked(ring: seq<Item>)
    reads ring
  {
    && (forall i {:trigger ring[i].next} :: 0 <= i < |ring| - 1 ==> ring[i].next == ring[i + 1])
    && (forall i {:trigger ring[i].prev} :: 1 <= i < |ring| ==> ring[i].prev == ring[i - 1])
  }

  function Without(ring: seq<Item>, k: nat): seq<Item>
    requires k < |ring|
  {
    ring[..k] + ring[k + 1..]
  }

  function WithFront(ring: seq<Item>, item: Item): seq<Item>
    requires ring != []
  {
    [ring[0], item] + ring[1..]
  }

  /** The items between the sentinels. */
  ghost function Inner(ring: seq<Item>): set<Item>
  {
    set i | 1 <= i < |ring| - 1 :: ring[i]
  }

  lemma InnerAt(ring: seq<Item>, k: nat)
    requires 1 <= k < |ring| - 1
    ensures ring[k] in Inner(ring)
  {
  }

  lemma WithoutInner(ring: seq<Item>, k: nat)
    requires NoDuplicates(ring) && 1 <= k < |ring| - 1
    ensures NoDuplicates(Without(ring, k)) && Inner(Without(ring, k)) == Inner(ring) - {ring[k]}
    ensures ring[k] !in Without(ring, k)
  {
    var r := Without(ring, k);
    forall x | x in Inner(ring) - {ring[k]} ensures x in Inner(r) {
      var j :| 1 <= j < |ring| - 1 && ring[j] == x;
      assert r[if j < k then j else j - 1] == x;
    }
    forall x | x in Inner(r) ensures x in Inner(ring) - {ring[k]} {
      var j :| 1 <= j < |r| - 1 && r[j] == x;
      assert x == ring[if j < k then j else j + 1];
    }
  }

  lemma WithFrontInner(ring: seq<Item>, item: Item)
    requires NoDuplicates(ring) && |ring| >= 2 && item !in ring
    ensures NoDuplicates(WithFront(ring, item)) && Inner(WithFront(ring, item)) == Inner(ring) + {item}
  {
    var r := WithFront(ring, item);
    forall x | x in Inner(ring) + {item} ensures x in Inner(r) {
      if x == item {
        assert r[1] == item;
      } else {
        var j :| 1 <= j < |ring| - 1 && ring[j] == x;
        assert r[j + 1] == x;
      }
    }
    forall x | x in Inner(r) ensures x in Inner(ring) + {item} {
      var j :| 1 <= j < |r| - 1 && r[j] == x;
      assert j == 1 || x == ring[j - 1];
    }
  }

  /** The index holds exactly these items, each under its hash. */
  ghost predicate Indexed(inner: set<Item>, items: map<uint64, Item>)
  {
    && (forall x :: x in inner ==> x.hash in items && items[x.hash] == x)
    && (forall h :: h in items ==> items[h] in inner && items[h].hash == h)
  }

  /** The entries a list stands for. */
  ghost predicate Shows(ring: seq<Item>, contents: Recency)
    reads ring
  {
    && |ring| == |contents| + 2
    && forall i :: 0 <= i < |contents| ==> contents[i].hash == ring[i + 1].hash && contents[i].blob == ring[i + 1].blob
  }

  /** The two pointer writes that take an item out of a list. */
  method Skip(item: Item, ghost ring: seq<Item>, ghost k: nat, ghost repr: set<Item>)
    requires 1 <= k < |ring| - 1 && ring[k] == item && Linked(ring) && NoDuplicates(ring) && Within(ring, repr)
    modifies repr`next, repr`prev
    ensures Linked(Without(ring, k))
  {
    item.prev.next := item.next;
    item.next.prev := item.prev;
  }

  /** The four that put one right behind the head. */
  method Push(item: Item, head: Item, ghost ring: seq<Item>, ghost repr: set<Item>)
    requires |ring| >= 2 && ring[0] == head && Linked(ring) && NoDuplicates(ring) && Within(ring, repr)
    requires item !in ring
    modifies repr`next, repr`prev, item`next, item`prev
    ensures Linked(WithFront(ring, item))
  {
    item.next := head.next;
    item.prev := head;
    head.next.prev := item;
    head.next := item;
    assert forall j {:trigger ring[j].prev} :: 2 <= j < |ring| ==> ring[j].prev == ring[j - 1];
    assert forall j {:trigger ring[j].next} :: 1 <= j < |ring| - 1 ==> ring[j].next == ring[j + 1];
  }

  ghost predicate Within(ring: seq<Item>, repr: set<Item>)
  {
    forall i :: 0 <= i < |ring| ==> ring[i] in repr
  }

  lemma WithoutShape(ring: seq<Item>, k: nat, repr: set<Item>)
    requires 1 <= k < |ring| - 1 && Within(ring, repr)
    ensures
      var r := Without(ring, k);
      Within(r, repr) && |r| == |ring| - 1 && r[0] == ring[0] && r[|r| - 1] == ring[|ring| - 1]
  {
  }

  lemma WithFrontShape(ring: seq<Item>, item: Item, repr: set<Item>)
    requires |ring| >= 2 && Within(ring, repr)
    ensures
      var r := WithFront(ring, item);
      Within(r, repr + {item}) && |r| == |ring| + 1 && r[0] == ring[0] && r[1] == item && r[|r| - 1] == ring[|ring| - 1]
  {
  }

  lemma ShowsFront(ring: seq<Item>, contents: Recency, item: Item)
    requires |ring| >= 2 && Shows(ring, contents)
    ensures Shows(WithFront(ring, item), [Entry(item.hash, item.blob)] + contents)
  {
  }

  lemma ShowsWithout(ring: seq<Item>, contents: Recency, k: nat)
    requires 1 <= k < |ring| - 1 && Shows(ring, contents)
    ensures Shows(Without(ring, k), contents[..k - 1] + contents[k..])
  {
  }

  lemma EmptyRing(h: Item, t: Item)
    requires h != t
    ensures NoDuplicates([h, t]) && Within([h, t], {h, t}) && Indexed(Inner([h, t]), map[]) && Shows([h, t], [])
  {
    assert Inner([h, t]) == {};
  }

  lemma IndexedRemove(inner: set<Item>, items: map<uint64, Item>, x: Item)
    requires Indexed(inner, items) && x in inner
    ensures Indexed(inner - {x}, items - {x.hash}) && |items - {x.hash}| == |items| - 1
  {
    var items' := items - {x.hash};
    assert items'.Keys == items.Keys - {x.hash};
    assert |items'.Keys| == |items.Keys| - 1;
  }

  lemma IndexedInsert(inner: set<Item>, items: map<uint64, Item>, x: Item)
    requires Indexed(inner, items) && x.hash !in items
    ensures Indexed(inner + {x}, items[x.hash := x]) && |items[x.hash := x]| == |items| + 1
  {
    var inner', items' := inner + {x}, items[x.hash := x];
    assert items'.Keys == items.Keys + {x.hash};
    assert |items'.Keys| == |items.Keys| + 1;
    assert forall y :: y in inner ==> y.hash != x.hash;
    forall h | h in items' ensures items'[h] in inner' && items'[h].hash == h {
      assert h == x.hash || items'[h] == items[h];
    }
  }

  class Cache {
    const capacity: int
    const hash: Hash
    var items: map<uint64, Item>
    var head: Item
    var tail: Item
    /** The whole list, sentinels included, from head to tail. */
    ghost var ring: seq<Item>

    /** The entries, most recent first. */
    ghost var contents: Recency
    /** Every item the list has held. */
    ghost var repr: set<Item>

    ghost predicate Listed()
      reads this, repr
    {
      && |ring| >= 2 && ring[0] == head && ring[|ring| - 1] == tail
      && Within(ring, repr)
      && Linked(ring) && NoDuplicates(ring)
    }

    ghost predicate Valid()
      reads this, repr
    {
      && Listed() && |items| == |ring| - 2 && Indexed(Inner(ring), items)
      && Shows(ring, contents)
    }

    constructor (capacity: int, hash: Hash)
      ensures Valid() && contents == [] && this.capacity == capacity && this.hash == hash
      ensures fresh(repr)
    {
      var h := new Item(0, []);
      var t := new Item(0, []);
      this.capacity, this.hash := capacity, hash;
      items := map[];
      head, tail, ring, contents, repr := h, t, [h, t], [], {h, t};
      new;
      h.next, t.prev := t, h;
    }

    lemma ContentsDistinct()
      requires Valid()
      ensures Distinct(contents)
      ensures forall h :: h in items <==> Find(contents, h).Some?
    {
      forall i, j | 0 <= i < j < |contents| ensures contents[i].hash != contents[j].hash {
        InnerAt(ring, i + 1);
        InnerAt(ring, j + 1);
      }
      forall h ensures h in items <==> Find(contents, h).Some? {
        if h in items {
          var at := Position(h);
          assert contents[at - 1] in contents;
        }
        if Find(contents, h).Some? {
          var i :| 0 <= i < |contents| && contents[i] == Find(contents, h).value;
          InnerAt(ring, i + 1);
        }
      }
    }

    lemma Position(h: uint64) returns (at: nat)
      requires Valid() && h in items
      ensures 1 <= at < |ring| - 1 && ring[at] == items[h] && items[h].hash == h
    {
      at :| 1 <= at < |ring| - 1 && ring[at] == items[h];
    }

    /** find: the item indexed under the hash, if its blob matches the key. */
    method FindItem(h: uint64, k: Key) returns (item: Item?, ghost at: nat)
      requires Valid()
      ensures item == null <==> FindKey(contents, h, k).None?
      ensures item != null ==>
                && 1 <= at < |ring| - 1 && ring[at] == item && item.hash == h
                && FindKey(contents, h, k) == Some(Entry(h, item.blob))
    {
      hide MatchesKey, Find;
      ContentsDistinct();
      if h !in items {
        return null, 0;
      }
      at := Position(h);
      FindUnique(contents, contents[at - 1]);
      item := items[h];
      if !MatchesKey(item.blob, k) {
        return null, 0;
      }
    }

    lemma UnlinkFacts(k: nat)
      requires Valid() && 1 <= k < |ring| - 1
      ensures NoDuplicates(Without(ring, k))
      ensures Indexed(Inner(Without(ring, k)), items - {ring[k].hash}) && |items - {ring[k].hash}| == |items| - 1
      ensures contents[..k - 1] + contents[k..] == Remove(contents, ring[k].hash)
    {
      hide Remove, Linked, Inner, Indexed, Distinct, Find;
      WithoutInner(ring, k);
      ContentsDistinct();
      RemoveAt(contents, k - 1);
      InnerAt(ring, k);
      IndexedRemove(Inner(ring), items, ring[k]);
    }

    /** unlink: out of the list and out of the index. */
    method Unlink(item: Item, ghost k: nat)
      requires Valid() && 1 <= k < |ring| - 1 && ring[k] == item
      modifies this`ring, this`items, this`contents, repr`next, repr`prev
      ensures Valid() && ring == Without(old(ring), k) && items == old(items) - {item.hash}
      ensures contents == old(contents[..k - 1] + contents[k..]) == Remove(old(contents), item.hash)
    {
      hide Remove, Inner, Indexed, Without, NoDuplicates, Within;
      UnlinkFacts(k);
      WithoutShape(ring, k, repr);
      Skip(item, ring, k, repr);
      ShowsWithout(ring, contents, k);
      items := items - {item.hash};
      ring := Without(ring, k);
      contents := contents[..k - 1] + contents[k..];
    }

    lemma TouchFacts(k: nat)
      requires Valid() && 1 <= k < |ring| - 1
      ensures
        var r := Without(ring, k);
        && NoDuplicates(r) && |r| == |ring| - 1 && r[0] == head && r[|r| - 1] == tail && ring[k] !in r && Within(r, repr)
        && NoDuplicates(WithFront(r, ring[k])) && Inner(WithFront(r, ring[k])) == Inner(ring)
        && Within(WithFront(r, ring[k]), repr) && ring[k] in repr
        && (var f := WithFront(r, ring[k]); |f| == |ring| && f[0] == head && f[1] == ring[k] && f[|f| - 1] == tail)
        && contents[..k - 1] + contents[k..] == Remove(contents, ring[k].hash)
    {
      hide Remove, Linked, Inner, Indexed, Distinct, Find;
      WithoutInner(ring, k);
      ContentsDistinct();
      RemoveAt(contents, k - 1);
      InnerAt(ring, k);
      WithoutShape(ring, k, repr);
      WithFrontInner(Without(ring, k), ring[k]);
      WithFrontShape(Without(ring, k), ring[k], repr);
      assert repr + {ring[k]} == repr;
      assert Inner(ring) - {ring[k]} + {ring[k]} == Inner(ring);
    }

    /** touch: moves the item for a key to the front. */
    method TouchItem(h: uint64, k: Key) returns (item: Item?)
      requires Valid()
      modifies this`ring, this`contents, repr`next, repr`prev
      ensures Valid() && contents == Touch(old(contents), h, k)
      ensures item == null <==> FindKey(old(contents), h, k).None?
      ensures item != null ==>
                && |ring| > 2 && ring[1] == item && item.hash == h && item in repr
                && FindKey(old(contents), h, k) == Some(Entry(h, item.blob))
    {
      hide Remove, Inner, Indexed, Without, WithFront, NoDuplicates, Within, FindKey;
      ghost var at;
      item, at := FindItem(h, k);
      if item != null {
        TouchFacts(at);
        ghost var r := Without(ring, at);
        Skip(item, ring, at, repr);
        Push(item, head, r, repr);
        ShowsWithout(ring, contents, at);
        ShowsFront(r, Remove(contents, h), item);
        ring, contents := WithFront(r, item), [Entry(h, item.blob)] + Remove(contents, h);
      }
    }

    lemma InsertFacts(item: Item)
      requires Valid() && item !in repr && item.hash !in items
      ensures
        var r := WithFront(ring, item);
        && item !in ring
        && NoDuplicates(r) && Within(r, repr + {item}) && |r| == |ring| + 1 && r[0] == head && r[|r| - 1] == tail
        && Indexed(Inner(r), items[item.hash := item]) && |items[item.hash := item]| == |items| + 1
    {
      hide Linked, Inner, Indexed;
      assert item !in ring;
      WithFrontInner(ring, item);
      WithFrontShape(ring, item, repr);
      IndexedInsert(Inner(ring), items, item);
    }

    /** insert, once nothing is indexed under the item's hash any more. */
    method InsertNew(item: Item)
      requires Valid() && item !in repr && item.hash !in items
      modifies this`ring, this`repr, this`items, this`contents, repr`next, repr`prev, item`next, item`prev
      ensures Valid() && repr == old(repr) + {item}
      ensures contents == [Entry(item.hash, item.blob)] + old(contents)
    {
      hide Inner, Indexed, WithFront, NoDuplicates, Within;
      InsertFacts(item);
      Push(item, head, ring, repr);
      ShowsFront(ring, contents, item);
      items := items[item.hash := item];
      ring, repr := WithFront(ring, item), repr + {item};
      contents := [Entry(item.hash, item.blob)] + contents;
    }

    /** resize: drops the least recent items until the capacity is met. */
    method Resize()
      requires Valid()
      modifies this`ring, this`items, this`contents, repr`next, repr`prev
      ensures Valid() && contents == Shrink(old(contents), capacity)
    {
      hide Inner, Indexed, Without, NoDuplicates, Within, Remove, Linked;
      if capacity <= 0 {
        return;
      }
      assert contents == old(contents)[..|contents|];
      while |items| > capacity
        invariant Valid() && |contents| <= |old(contents)| && contents == old(contents)[..|contents|]
        invariant |old(contents)| > capacity ==> |contents| >= capacity
        invariant |old(contents)| <= capacity ==> contents == old(contents)
        decreases |contents|
      {
        LastItem();
        Unlink(tail.prev, |ring| - 2);
      }
    }

    lemma LastItem()
      requires Valid() && |items| > 0
      ensures |ring| == |contents| + 2 > 2 && tail.prev == ring[|ring| - 2]
    {
    }

    /** Replaces the blob of the most recent item. */
    method Replace(item: Item, blob: Bytes)
      requires Valid() && |ring| > 2 && ring[1] == item
      modifies item`blob, this`contents
      ensures Valid() && contents == [Entry(item.hash, blob)] + old(contents)[1..]
    {
      hide Inner, Indexed, Within;
      item.blob := blob;
      contents := contents[0 := Entry(item.hash, blob)];
    }

    /** addKey: the blob becomes the most recent entry, in place of whatever its hash indexed before. */
    method AddKey(key: Key, blob: Bytes)
      requires Valid() && (capacity > 0 ==> |contents| <= capacity)
      modifies this, repr
      ensures Valid() && fresh(repr - old(repr))
      ensures contents == Add(old(contents), capacity, Entry(hash(key), blob))
      ensures capacity > 0 ==> |contents| <= capacity
    {
      hide Inner, Indexed, Without, NoDuplicates, Within, Remove, Find, MatchesKey, FindKey, Linked, Shows;
      var h := hash(key);
      ContentsDistinct();
      RemoveOne(contents, h);
      var item := TouchItem(h, key);
      if item != null {
        Replace(item, blob);
        return;
      }
      item := new Item(h, blob);
      Insert(item);
    }

    /** insert: whatever is indexed under the item's hash makes way for it, then the list is cut to size. */
    method Insert(item: Item)
      requires Valid() && item !in repr
      modifies this, repr, item
      ensures Valid() && repr == old(repr) + {item}
      ensures contents == old(Add(contents, capacity, Entry(item.hash, item.blob)))
    {
      hide Inner, Indexed, Without, NoDuplicates, Within, Remove, Find, Linked, Shows;
      ContentsDistinct();
      RemoveOne(contents, item.hash);
      if item.hash in items {
        ghost var at := Position(item.hash);
        Unlink(items[item.hash], at);
      }
      InsertNew(item);
      Resize();
    }

    /** delete */
    method DeleteKey(key: Key)
      requires Valid()
      modifies this`ring, this`items, this`contents, repr`next, repr`prev
      ensures Valid() && contents == Delete(old(contents), hash(key), key)
    {
      hide Inner, Indexed, Without, NoDuplicates, Within, Remove, FindKey, Linked;
      var item, at := FindItem(hash(key), key);
      if item != null {
        Unlink(item, at);
      }
    }

    /** get: the blob stored for a key, which becomes the most recent entry. */
    method Get(key: Key) returns (blob: Option<Bytes>)
      requires Valid()
      modifies this`ring, this`contents, repr`next, repr`prev
      ensures Valid() && contents == Touch(old(contents), hash(key), key)
      ensures blob == match FindKey(old(contents), hash(key), key) case None => None case Some(e) => Some(e.blob)
    {
      hide Inner, Indexed, Without, NoDuplicates, Within, Remove, FindKey, Linked;
      var item := TouchItem(hash(key), key);
      blob := if item == null then None else Some(item.blob);
    }

    /** deleteFunc: one pass over the list that takes out every entry the test drops. */
    method DeleteFunc(drop: Bytes -> bool)
      requires Valid()
      modifies this`ring, this`items, this`contents, repr`next, repr`prev
      ensures Valid() && contents == Sweep(old(contents), drop)
    {
      hide Inner, Indexed, Without, NoDuplicates, Within, Remove, Sweep, Swept, Linked, Shows;
      ghost var s := contents;
      ghost var i, j := 0, 1;
      SweptStart(s, drop);
      FirstItem();
      var item := head.next;
      while item != tail
        invariant Valid() && 0 <= i <= |s| && 1 <= j < |ring| && item == ring[j]
        invariant Swept(s, i, drop, contents, j)
        decreases |s| - i
      {
        NotTail(j);
        SweptStep(s, i, drop, contents, j);
        var next := item.next;
        if drop(item.blob) {
          SkipsTo(ring, j);
          Unlink(item, j);
        } else {
          j := j + 1;
        }
        i := i + 1;
        item := next;
      }
      AtTail(j);
      SweptEnd(s, i, drop, contents, j);
    }

    lemma FirstItem()
      requires Valid()
      ensures |ring| > 1 && head.next == ring[1]
    {
    }

    lemma NotTail(j: nat)
      requires Valid() && 1 <= j < |ring| && ring[j] != tail
      ensures j < |ring| - 1 && j - 1 < |contents| && ring[j].next == ring[j + 1] && contents[j - 1].blob == ring[j].blob
    {
    }

    lemma AtTail(j: nat)
      requires Valid() && 1 <= j < |ring| && ring[j] == tail
      ensures j == |ring| - 1 && j - 1 == |contents|
    {
    }

    /** reset */
    method Reset()
      modifies this
      ensures Valid() && contents == [] && fresh(repr)
    {
      hide Inner, Indexed, NoDuplicates, Within, Shows;
      var h := new Item(0, []);
      var t := new Item(0, []);
      h.next, t.prev := t, h;
      head, tail := h, t;
      items := map[];
      ring, contents, repr := [h, t], [], {h, t};
      EmptyRing(h, t);
    }
  }

  lemma SkipsTo(ring: seq<Item>, j: nat)
    requires j < |ring| - 1
    ensures |Without(ring, j)| == |ring| - 1 && Without(ring, j)[j] == ring[j + 1]
  {
  }

  /** A pass that has seen i entries of s and kept j - 1 of them. */
  ghost predicate Swept(s: Recency, i: nat, drop: Bytes -> bool, now: Recency, j: nat)
  {
    i <= |s| && now == Sweep(s[..i], drop) + s[i..] && j == |Sweep(s[..i], drop)| + 1
  }

  lemma SweptStart(s: Recency, drop: Bytes -> bool)
    ensures Swept(s, 0, drop, s, 1)
  {
    assert s[..0] == [] && s[0..] == s;
  }

  lemma SweptStep(s: Recency, i: nat, drop: Bytes -> bool, now: Recency, j: nat)
    requires Swept(s, i, drop, now, j) && 1 <= j <= |now|
    ensures i < |s| && s[i] == now[j - 1]
    ensures if drop(s[i].blob) then Swept(s, i + 1, drop, now[..j - 1] + now[j..], j) else Swept(s, i + 1, drop, now, j + 1)
  {
    hide Sweep;
    SweepSnoc(s, i, drop);
    assert now[..j - 1] == Sweep(s[..i], drop) && now[j - 1..] == s[i..];
    assert now[j..] == s[i + 1..];
  }

  lemma SweptEnd(s: Recency, i: nat, drop: Bytes -> bool, now: Recency, j: nat)
    requires Swept(s, i, drop, now, j) && j == |now| + 1
    ensures now == Sweep(s, drop)
  {
    assert s[..i] == s;
  }

  lemma SweepSnoc(s: Recency, i: nat, drop: Bytes -> bool)
    requires i < |s|
    ensures Sweep(s[..i + 1], drop) == Sweep(s[..i], drop) + if drop(s[i].blob) then [] else [s[i]]
  {
    assert s[..i + 1] == s[..i] + [s[i]];
    KeepConcat(s[..i], [s[i]], (e: Entry) => !drop(e.blob));
  }

  /** Among distinct hashes, removing that of an entry removes just the entry. */
  lemma RemoveAt(s: Recency, i: nat)
    requires Distinct(s) && i < |s|
    ensures Remove(s, s[i].hash) == s[..i] + s[i + 1..]
  {
    hide Keep;
    var h := s[i].hash;
    var p := (e: Entry) => e.hash != h;
    SplitAt(s, i);
    KeepConcat(s[..i], [s[i]] + s[i + 1..], p);
    KeepConcat([s[i]], s[i + 1..], p);
    KeepAll(s[..i], p);
    KeepAll(s[i + 1..], p);
    KeepNothing(s[i], p);
  }

  lemma SplitAt(s: Recency, i: nat)
    requires Distinct(s) && i < |s|
    ensures s == s[..i] + ([s[i]] + s[i + 1..])
    ensures forall e :: e in s[..i] || e in s[i + 1..] ==> e.hash != s[i].hash
  {
  }

  lemma KeepNothing(e: Entry, p: Entry -> bool)
    requires !p(e)
    ensures Keep([e], p) == []
  {
    assert Keep([e][1..], p) == [];
  }
}
