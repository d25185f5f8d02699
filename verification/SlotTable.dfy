/**
 * The open-addressed table of the domain trie: packed slots, linear probing,
 * and the invariant every probe relies on.
 *
 * A slot packs the parent (28 bits), the child (28 bits) and a byte of the
 * hash (8 bits).  The three fields do not overlap, so shifting and or-ing them
 * together is the sum below and masking is division and remainder.
 */
module SlotTable {
  import opened Octets
  import opened DomainName

  const MAX_NODES: nat := 0x1000_0000
  const PARENT_UNIT: nat := 0x10_0000_0000

  /** What identifies a node: the parent it hangs under and its label. */
  datatype Key = Key(parent: nat, text: Label)

  /** domainHash, left uninterpreted. */
  type Hash = (nat, Label) -> uint64

  function Slot(parent: nat, child: nat, tag: nat): uint64
    requires parent < MAX_NODES && child < MAX_NODES && tag < 256
  {
    parent * PARENT_UNIT + child * 256 + tag
  }

  /** uint32(s>>8) & domainSlotChild */
  function ChildOf(s: uint64): nat
  {
    s / 256 % MAX_NODES
  }

  /** s & domainSlotKey: the parent and the tag, with the child cleared. */
  function KeyBits(s: uint64): uint64
  {
    s / PARENT_UNIT * PARENT_UNIT + s % 256
  }

  /** Packed ids decode exactly, a filled slot is never zero, and the key bits identify parent and tag. */
  lemma SlotDecodes(parent: nat, child: nat, tag: nat)
    requires parent < MAX_NODES && child < MAX_NODES && tag < 256
    ensures ChildOf(Slot(parent, child, tag)) == child
    ensures KeyBits(Slot(parent, child, tag)) == Slot(parent, 0, tag)
    ensures child != 0 ==> Slot(parent, child, tag) != 0
  {
    var s := Slot(parent, child, tag);
    assert s / 256 == parent * MAX_NODES + child;
    assert s / PARENT_UNIT == parent;
  }

  lemma SlotKeyInjective(p: nat, t: nat, p': nat, t': nat)
    requires p < MAX_NODES && p' < MAX_NODES && t < 256 && t' < 256
    requires Slot(p, 0, t) == Slot(p', 0, t')
    ensures p == p' && t == t'
  {
    assert Slot(p, 0, t) / PARENT_UNIT == p && Slot(p', 0, t') / PARENT_UNIT == p';
  }

  /** index: the high word of the 128-bit product of the hash and the table size. */
  function Index(h: uint64, size: nat): (i: nat)
    requires size > 0
    ensures i < size
  {
    assert h * size < TWO_64 * size;
    assert h * size / TWO_64 < size by { DivBelow(h * size, size); }
    h * size / TWO_64
  }

  lemma DivBelow(x: nat, size: nat)
    requires x < TWO_64 * size
    ensures x / TWO_64 < size
  {
  }

  function Next(idx: nat, size: nat): nat
  {
    if idx + 1 == size then 0 else idx + 1
  }

  /** The slot k steps after home, and how many steps a slot is from home. */
  function Step(home: nat, k: nat, size: nat): (i: nat)
    requires home < size && k < size
    ensures i < size
  {
    if home + k < size then home + k else home + k - size
  }

  function Steps(home: nat, idx: nat, size: nat): (k: nat)
    requires home < size && idx < size
    ensures k < size && Step(home, k, size) == idx
  {
    if home <= idx then idx - home else idx + size - home
  }

  function Tag(hash: Hash, key: Key): nat
  {
    hash(key.parent, key.text) % 256
  }

  function Home(hash: Hash, key: Key, size: nat): (i: nat)
    requires size > 0
    ensures i < size
  {
    Index(hash(key.parent, key.text), size)
  }

  function SlotFor(hash: Hash, key: Key, node: nat): uint64
    requires key.parent < MAX_NODES && node < MAX_NODES
  {
    Slot(key.parent, node, Tag(hash, key))
  }

  // ----- the invariant -----

  /** Every slot a probe for the key passes in its first k steps is filled. */
  ghost predicate Filled(S: seq<uint64>, home: nat, k: nat)
    requires home < |S| && k <= |S|
  {
    forall j :: 0 <= j < k ==> S[Step(home, j, |S|)] != 0
  }

  /** Node i sits at slot `at`, reachable from its home index through filled slots only. */
  ghost predicate Placed(hash: Hash, key: Key, i: nat, S: seq<uint64>, at: nat)
    requires |S| > 0 && i < MAX_NODES
  {
    && at < |S|
    && key.parent < MAX_NODES
    && S[at] == SlotFor(hash, key, i)
    && Filled(S, Home(hash, key, |S|), Steps(Home(hash, key, |S|), at, |S|))
  }

  /** The table holds exactly the nodes 1 .. |pos|, node i at pos[i]. */
  ghost predicate TableOk(hash: Hash, keys: seq<Key>, S: seq<uint64>, pos: seq<nat>)
  {
    && 1 <= |pos| <= |keys| <= MAX_NODES
    && 0 < |S|
    && (forall i :: 1 <= i < |pos| ==> Placed(hash, keys[i], i, S, pos[i]))
    && (forall j :: 0 <= j < |S| && S[j] != 0 ==>
          1 <= ChildOf(S[j]) < |pos| && pos[ChildOf(S[j])] == j)
  }

  /** A table with more slots than nodes has an empty one, so a probe ends. */
  lemma EmptySlot(hash: Hash, keys: seq<Key>, S: seq<uint64>, pos: seq<nat>) returns (e: nat)
    requires TableOk(hash, keys, S, pos) && |pos| <= |S|
    ensures e < |S| && S[e] == 0
  {
    if forall j :: 0 <= j < |S| ==> S[j] != 0 {
      var children := seq(|S|, j requires 0 <= j < |S| => ChildOf(S[j]));
      forall j, k | 0 <= j < k < |S| ensures children[j] != children[k] {
        assert pos[ChildOf(S[j])] == j && pos[ChildOf(S[k])] == k;
      }
      Pigeonhole(children, |pos|);
    }
    e :| 0 <= e < |S| && S[e] == 0;
  }

  /** Distinct numbers in 1 .. n are fewer than n. */
  lemma {:induction false} Pigeonhole(s: seq<nat>, n: nat)
    requires forall j :: 0 <= j < |s| ==> 1 <= s[j] < n
    requires forall j, k :: 0 <= j < k < |s| ==> s[j] != s[k]
    ensures s == [] || |s| < n
  {
    if s == [] {
    } else {
      assert 1 <= s[0] < n;
      if j :| 0 <= j < |s| && s[j] == n - 1 {
        var rest := s[..j] + s[j + 1..];
        Pigeonhole(rest, n - 1);
      } else {
        Pigeonhole(s, n - 1);
      }
    }
  }

  /** Filling the first empty slot a probe reaches keeps the invariant. */
  lemma AddKeepsTable(hash: Hash, keys: seq<Key>, S: seq<uint64>, pos: seq<nat>, k: nat)
    requires TableOk(hash, keys, S, pos) && |pos| < |keys| && k < |S|
    requires keys[|pos|].parent < MAX_NODES
    requires Filled(S, Home(hash, keys[|pos|], |S|), k)
    requires S[Step(Home(hash, keys[|pos|], |S|), k, |S|)] == 0
    ensures
      var key, at := keys[|pos|], Step(Home(hash, keys[|pos|], |S|), k, |S|);
      TableOk(hash, keys, S[at := SlotFor(hash, key, |pos|)], pos + [at])
  {
    var key := keys[|pos|];
    var at := Step(Home(hash, key, |S|), k, |S|);
    var S' := S[at := SlotFor(hash, key, |pos|)];
    SlotDecodes(key.parent, |pos|, Tag(hash, key));
    forall i | 1 <= i < |pos| ensures Placed(hash, keys[i], i, S', pos[i]) {
      SlotDecodes(keys[i].parent, i, Tag(hash, keys[i]));
    }
  }

  /** What a probe's slot test accepts is the node asked for. */
  lemma AcceptedSlot(hash: Hash, keys: seq<Key>, S: seq<uint64>, pos: seq<nat>, key: Key, j: nat)
    requires TableOk(hash, keys, S, pos) && key.parent < MAX_NODES && j < |S| && S[j] != 0
    ensures
      var c := ChildOf(S[j]);
      && 1 <= c < |pos|
      && (KeyBits(S[j]) == SlotFor(hash, key, 0) && keys[c].text == key.text <==> keys[c] == key)
  {
    var c := ChildOf(S[j]);
    assert Placed(hash, keys[c], c, S, pos[c]);
    SlotDecodes(keys[c].parent, c, Tag(hash, keys[c]));
    if KeyBits(S[j]) == SlotFor(hash, key, 0) {
      SlotKeyInjective(key.parent, Tag(hash, key), keys[c].parent, Tag(hash, keys[c]));
    }
  }

  /** The first k slots of a probe are filled and hold other nodes than the one asked for. */
  ghost predicate Passed(keys: seq<Key>, key: Key, S: seq<uint64>, home: nat, k: nat)
    requires home < |S| && k <= |S|
  {
    forall j :: 0 <= j < k ==>
      var s := S[Step(home, j, |S|)];
      s != 0 && (ChildOf(s) < |keys| ==> keys[ChildOf(s)] != key)
  }

  /** A probe that meets an empty slot has passed every node it could be looking for. */
  lemma ProbeMiss(hash: Hash, keys: seq<Key>, S: seq<uint64>, pos: seq<nat>, key: Key, k: nat)
    requires TableOk(hash, keys, S, pos) && k < |S|
    requires Passed(keys, key, S, Home(hash, key, |S|), k)
    requires S[Step(Home(hash, key, |S|), k, |S|)] == 0
    ensures forall i :: 1 <= i < |pos| ==> keys[i] != key
  {
    forall i | 1 <= i < |pos| ensures keys[i] != key {
      if keys[i] == key {
        assert Placed(hash, keys[i], i, S, pos[i]);
        SlotDecodes(key.parent, i, Tag(hash, key));
      }
    }
  }

  /** Nodes the table does not hold yet do not disturb it. */
  lemma TableOkExtend(hash: Hash, keys: seq<Key>, S: seq<uint64>, pos: seq<nat>, key: Key)
    requires TableOk(hash, keys, S, pos) && |keys| < MAX_NODES
    ensures TableOk(hash, keys + [key], S, pos)
  {
  }
}
