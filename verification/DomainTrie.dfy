/**
 * The domain trie: nodes in one array, long labels in one blob, and the slot
 * table that maps a node and a label to the child below it.
 */
module DomainTrie {
  import opened Octets
  import opened DomainName
  import opened DomainRules
  import opened SlotTable

  const INLINE_LABEL: nat := 6

  /** A node: six octets holding a short label or the offset of a long one, its length and its flags. */
  datatype DomainNode = DomainNode(text: Bytes, length: nat, flags: Flags)

  /** binary.LittleEndian */
  function GetUint32(b: Bytes): uint32
    requires |b| == 4
  {
    b[0] as int + 0x100 * (b[1] as int + 0x100 * (b[2] as int + 0x100 * b[3] as int))
  }

  function PutUint32(n: uint32): (b: Bytes)
    ensures |b| == 4 && GetUint32(b) == n
  {
    var n1 := n / 0x100;
    var n2 := n1 / 0x100;
    var n3 := n2 / 0x100;
    [(n % 0x100) as byte, (n1 % 0x100) as byte, (n2 % 0x100) as byte, n3 as byte]
  }

  /** A node whose label can be read back. */
  predicate NodeOk(n: DomainNode, blob: Bytes)
  {
    && |n.text| == INLINE_LABEL
    && n.length < 256
    && |blob| < TWO_32
    && (n.length > INLINE_LABEL ==> GetUint32(n.text[..4]) + n.length <= |blob|)
  }

  /** labelAt; the end of the slice is computed in 32 bits. */
  function LabelOf(n: DomainNode, blob: Bytes): Label
    requires NodeOk(n, blob)
  {
    if n.length <= INLINE_LABEL then n.text[..n.length]
    else
      var off := GetUint32(n.text[..4]);
      blob[off..(off + n.length) % TWO_32]
  }

  /** The text field of a node: a short label itself, or else where the blob has it. */
  function InlineText(l: Label): (t: Bytes)
    requires |l| <= INLINE_LABEL
    ensures |t| == INLINE_LABEL && t[..|l|] == l
  {
    l + seq(INLINE_LABEL - |l|, _ => 0)
  }

  function OffsetText(n: uint32): (t: Bytes)
    ensures |t| == INLINE_LABEL && t[..4] == PutUint32(n)
  {
    PutUint32(n) + [0, 0]
  }

  /** How a new node stores its label, and what it appends to the blob. */
  function StoreLabel(l: Label, blob: Bytes): (r: (DomainNode, Bytes))
    requires |l| <= MAX_LABEL && |blob| < TWO_32
    ensures r.0.flags == NO_FLAGS && blob <= r.1 && |r.1| == |blob| + LongBytes(l)
  {
    if |l| <= INLINE_LABEL then (DomainNode(InlineText(l), |l|, NO_FLAGS), blob)
    else (DomainNode(OffsetText(|blob|), |l|, NO_FLAGS), blob + l)
  }

  /** Either way the label reads back as stored. */
  lemma StoredReadsBack(l: Label, blob: Bytes)
    requires |l| <= MAX_LABEL && |blob| + LongBytes(l) < TWO_32
    ensures var r := StoreLabel(l, blob); NodeOk(r.0, r.1) && LabelOf(r.0, r.1) == l
  {
    hide NodeOk, LabelOf, PutUint32;
    if |l| <= INLINE_LABEL {
      StoredInline(l, blob, StoreLabel(l, blob).0);
    } else {
      StoredInBlob(l, blob, StoreLabel(l, blob).0);
    }
  }

  lemma StoredInline(l: Label, blob: Bytes, n: DomainNode)
    requires |n.text| == INLINE_LABEL && |blob| < TWO_32 && |l| == n.length <= INLINE_LABEL && n.text[..|l|] == l
    ensures NodeOk(n, blob) && LabelOf(n, blob) == l
  {
  }

  lemma StoredInBlob(l: Label, blob: Bytes, n: DomainNode)
    requires |n.text| == INLINE_LABEL && INLINE_LABEL < |l| == n.length <= MAX_LABEL
    requires |blob| + |l| < TWO_32 && n.text[..4] == PutUint32(|blob|)
    ensures NodeOk(n, blob + l) && LabelOf(n, blob + l) == l
  {
    assert (blob + l)[|blob|..] == l;
  }

  /** The octets of a label that go to the blob. */
  function LongBytes(l: Label): nat
  {
    if |l| <= INLINE_LABEL then 0 else |l|
  }

  // ----- what child and the flag update do to a rule tree -----

  ghost function WithChild(t: Tree, parent: Path, l: Label): Tree
    requires parent in t
  {
    if parent + [l] in t then t
    else t[parent := Or(t[parent], CHILDREN)][parent + [l] := NO_FLAGS]
  }

  ghost function WithFlag(t: Tree, p: Path, f: Flags): Tree
    requires p in t
  {
    t[p := Or(t[p], f)]
  }

  // ----- the relation between nodes, labels and paths -----

  ghost predicate NodesOk(nodes: seq<DomainNode>, blob: Bytes, keys: seq<Key>)
  {
    && 1 <= |nodes| == |keys| <= MAX_NODES
    && |blob| < TWO_32
    && forall i :: 1 <= i < |nodes| ==> NodeOk(nodes[i], blob) && LabelOf(nodes[i], blob) == keys[i].text
  }

  ghost predicate PathsOk(keys: seq<Key>, paths: seq<Path>, at: map<Path, nat>)
  {
    && 1 <= |keys| == |paths|
    && paths[0] == []
    && (forall i :: 1 <= i < |keys| ==>
          keys[i].parent < i && paths[i] == paths[keys[i].parent] + [keys[i].text])
    && (forall i :: 0 <= i < |paths| ==> paths[i] in at && at[paths[i]] == i)
    && (forall p :: p in at ==> at[p] < |paths| && paths[at[p]] == p)
  }

  /** Appending to the blob moves no label. */
  lemma LabelStable(n: DomainNode, blob: Bytes, blob': Bytes)
    requires NodeOk(n, blob) && blob <= blob' && |blob'| < TWO_32
    ensures NodeOk(n, blob') && LabelOf(n, blob') == LabelOf(n, blob)
  {
  }

  lemma NodesOkExtend(nodes: seq<DomainNode>, blob: Bytes, keys: seq<Key>, l: Label, parent: nat)
    requires NodesOk(nodes, blob, keys) && |nodes| < MAX_NODES
    requires |l| <= MAX_LABEL && |blob| + LongBytes(l) < TWO_32
    ensures
      var (n, blob') := StoreLabel(l, blob);
      NodesOk(nodes + [n], blob', keys + [Key(parent, l)])
  {
    hide NodeOk, LabelOf, StoreLabel;
    var (n, blob') := StoreLabel(l, blob);
    StoredReadsBack(l, blob);
    forall i | 1 <= i < |nodes|
      ensures NodeOk(nodes[i], blob') && LabelOf(nodes[i], blob') == LabelOf(nodes[i], blob)
    {
      LabelStable(nodes[i], blob, blob');
    }
  }

  lemma NodesOkFlags(nodes: seq<DomainNode>, blob: Bytes, keys: seq<Key>, i: nat)
    requires NodesOk(nodes, blob, keys) && i < |nodes|
    ensures forall f :: NodesOk(nodes[i := nodes[i].(flags := f)], blob, keys)
  {
  }

  lemma PathsOkExtend(keys: seq<Key>, paths: seq<Path>, at: map<Path, nat>, parent: nat, l: Label)
    requires PathsOk(keys, paths, at) && parent < |keys| && paths[parent] + [l] !in at
    ensures PathsOk(keys + [Key(parent, l)], paths + [paths[parent] + [l]], at[paths[parent] + [l] := |paths|])
  {
  }

  /** In such a tree a path determines its last label and its parent. */
  lemma PathDeterminesKey(keys: seq<Key>, paths: seq<Path>, at: map<Path, nat>, i: nat, key: Key)
    requires PathsOk(keys, paths, at) && 1 <= i < |keys| && key.parent < |keys|
    ensures keys[i] == key <==> paths[i] == paths[key.parent] + [key.text]
  {
    if paths[i] == paths[key.parent] + [key.text] {
      var p := paths[keys[i].parent];
      assert p == paths[i][..|paths[i]| - 1] == paths[key.parent];
      assert paths[i][|paths[i]| - 1] == keys[i].text == key.text;
    }
  }

  /** The rule tree a set of nodes stands for. */
  ghost function TreeOf(nodes: seq<DomainNode>, at: map<Path, nat>): Tree
    requires forall p :: p in at ==> at[p] < |nodes|
  {
    map p | p in at :: nodes[at[p]].flags
  }

  lemma RootOf(nodes: seq<DomainNode>, keys: seq<Key>, paths: seq<Path>, at: map<Path, nat>)
    requires PathsOk(keys, paths, at) && |nodes| == |paths|
    ensures paths[0] == [] && At(TreeOf(nodes, at), []) == Some(nodes[0].flags)
    ensures [] in TreeOf(nodes, at) && TreeOf(nodes, at)[[]] == nodes[0].flags
  {
  }

  lemma TreeOfFlag(nodes: seq<DomainNode>, keys: seq<Key>, paths: seq<Path>, at: map<Path, nat>, i: nat, f: Flags)
    requires PathsOk(keys, paths, at) && |nodes| == |paths| && i < |nodes|
    ensures TreeOf(nodes[i := nodes[i].(flags := Or(nodes[i].flags, f))], at) == WithFlag(TreeOf(nodes, at), paths[i], f)
  {
  }

  lemma TreeOfChild(nodes: seq<DomainNode>, keys: seq<Key>, paths: seq<Path>, at: map<Path, nat>,
                    parent: nat, l: Label, n: DomainNode)
    requires PathsOk(keys, paths, at) && |nodes| == |paths| && parent < |nodes|
    requires paths[parent] + [l] !in at && n.flags == NO_FLAGS
    ensures
      var nodes' := nodes[parent := nodes[parent].(flags := Or(nodes[parent].flags, CHILDREN))] + [n];
      var at' := at[paths[parent] + [l] := |paths|];
      TreeOf(nodes', at') == WithChild(TreeOf(nodes, at), paths[parent], l)
  {
  }

  /**
   * The trie while it is built and while it serves queries.  `parents` belongs
   * to the builder and is dropped by Done; the ghost fields describe which node
   * stands for which path and where it sits in the table.
   */
  class Trie {
    const hash: Hash
    var nodes: seq<DomainNode>
    var blob: Bytes
    var slots: array<uint64>
    var parents: seq<nat>
    ghost var keys: seq<Key>
    ghost var pos: seq<nat>
    ghost var paths: seq<Path>
    ghost var at: map<Path, nat>

    ghost predicate Valid()
      reads this, slots
    {
      && 1 <= |nodes| == |keys| == |paths| == |pos| <= MAX_NODES
      && NodesOk(nodes, blob, keys)
      && PathsOk(keys, paths, at)
      && TableOk(hash, keys, slots[..], pos)
      && 3 * |nodes| <= 2 * slots.Length
    }

    ghost predicate Building()
      reads this, slots
    {
      && Valid()
      && slots.Length >= 64
      && |parents| == |nodes|
      && forall i :: 1 <= i < |nodes| ==> parents[i] == keys[i].parent
    }

    /** The rule tree the trie stands for. */
    ghost function Contents(): Tree
      reads this, slots
      requires Valid()
    {
      TreeOf(nodes, at)
    }

    constructor (hash: Hash)
      ensures Building() && fresh(slots)
      ensures this.hash == hash && Contents() == map[[] := NO_FLAGS] && blob == []
      ensures |nodes| == 1 && paths == [[]]
    {
      this.hash := hash;
      nodes := [DomainNode([0, 0, 0, 0, 0, 0], 0, NO_FLAGS)];
      blob := [];
      parents := [0];
      slots := new uint64[64](_ => 0);
      keys, pos, paths, at := [Key(0, [])], [0], [[]], map[[] := 0];
    }

    /** trieFind: probes for the child of parent carrying the label. */
    method Probe(parent: nat, l: Label) returns (node: nat, ok: bool)
      requires NodesOk(nodes, blob, keys) && TableOk(hash, keys, slots[..], pos)
      requires |pos| == |keys| <= slots.Length && parent < MAX_NODES
      ensures ok ==> 1 <= node < |keys| && keys[node] == Key(parent, l)
      ensures !ok ==> forall i :: 1 <= i < |keys| ==> keys[i] != Key(parent, l)
    {
      hide Index, TableOk, LabelOf, ChildOf, KeyBits, Slot;
      ghost var key, S := Key(parent, l), slots[..];
      ghost var e := EmptySlot(hash, keys, S, pos);
      ghost var home := Home(hash, key, |S|);
      var h := hash(parent, l);
      var want := Slot(parent, 0, h % 256);
      var idx := Index(h, slots.Length);
      ghost var k := 0;
      while true
        invariant k <= Steps(home, e, |S|) && idx == Step(home, k, |S|)
        invariant Passed(keys, key, S, home, k)
        decreases |S| - k
      {
        var s := slots[idx];
        if s == 0 {
          ProbeMiss(hash, keys, S, pos, key, k);
          return 0, false;
        }
        AcceptedSlot(hash, keys, S, pos, key, idx);
        if KeyBits(s) == want {
          node := ChildOf(s);
          if LabelOf(nodes[node], blob) == l {
            return node, true;
          }
        }
        idx := Next(idx, slots.Length);
        k := k + 1;
      }
    }

    /** trieFind, in terms of paths. */
    method Find(parent: nat, l: Label) returns (node: nat, ok: bool)
      requires Valid() && parent < |nodes|
      ensures ok <==> paths[parent] + [l] in at
      ensures ok ==> node == at[paths[parent] + [l]]
      ensures ok ==> node < |nodes| && paths[node] == paths[parent] + [l]
      ensures At(Contents(), paths[parent] + [l]) == if ok then Some(nodes[node].flags) else None
    {
      node, ok := Probe(parent, l);
      if ok {
        assert paths[node] == paths[parent] + [l];
      } else if paths[parent] + [l] in at {
        PathDeterminesKey(keys, paths, at, at[paths[parent] + [l]], Key(parent, l));
      }
    }

    /** trieAdd: puts the next node into the first free slot after its home index. */
    method Add(parent: nat, l: Label, node: nat)
      requires TableOk(hash, keys, slots[..], pos) && |pos| < |keys| && |pos| < slots.Length
      requires node == |pos| && keys[node] == Key(parent, l) && parent < MAX_NODES
      modifies slots, this`pos
      ensures TableOk(hash, keys, slots[..], pos) && |pos| == node + 1
    {
      ghost var S := slots[..];
      ghost var home := Home(hash, keys[node], |S|);
      ghost var e := EmptySlot(hash, keys, S, pos);
      var h := hash(parent, l);
      var idx := Index(h, slots.Length);
      ghost var k := 0;
      while slots[idx] != 0
        invariant k < |S| && idx == Step(home, k, |S|) && k <= Steps(home, e, |S|)
        invariant slots[..] == S
        invariant Filled(S, home, k)
        decreases |S| - k
      {
        idx := Next(idx, slots.Length);
        k := k + 1;
      }
      AddKeepsTable(hash, keys, S, pos, k);
      slots[idx] := Slot(parent, node, h % 256);
      pos := pos + [idx];
      assert slots[..] == S[idx := SlotFor(hash, keys[node], node)];
    }

    /** rebuild: lays the table out again at another size; no node, label or path changes. */
    method Rebuild(size: nat)
      requires Building() && |nodes| <= size
      modifies this`slots, this`pos
      ensures fresh(slots) && slots.Length == size
      ensures TableOk(hash, keys, slots[..], pos) && |pos| == |keys|
    {
      slots := new uint64[size](_ => 0);
      pos := [0];
      var id := 1;
      while id < |nodes|
        invariant 1 <= id <= |nodes| == |pos| + |nodes| - id
        invariant fresh(slots) && slots.Length == size
        invariant TableOk(hash, keys, slots[..], pos)
      {
        Add(parents[id], LabelOf(nodes[id], blob), id);
        id := id + 1;
      }
    }

    /** child: the node for a label under parent, added if it is new; None when node ids run out. */
    method Child(parent: nat, l: Label) returns (r: Option<nat>)
      requires Building() && parent < |nodes| && |l| <= MAX_LABEL
      requires paths[parent] + [l] !in Contents() ==> |blob| + LongBytes(l) < TWO_32
      modifies this, slots
      ensures Building() && (slots == old(slots) || fresh(slots))
      ensures old(paths) <= paths
      ensures r.None? <==> old(paths[parent] + [l] !in Contents() && |nodes| == MAX_NODES)
      ensures r.None? ==> Contents() == old(Contents())
      ensures r.Some? ==> r.value < |nodes| && paths[r.value] == old(paths[parent] + [l])
      ensures r.Some? ==> Contents() == WithChild(old(Contents()), old(paths[parent]), l)
      ensures |blob| == |old(blob)| + if r.None? || old(paths[parent] + [l] in Contents()) then 0 else LongBytes(l)
    {
      hide TableOk, NodesOk;
      var node, ok := Find(parent, l);
      if ok {
        return Some(node);
      }
      if |nodes| >= MAX_NODES {
        return None;
      }
      if (|nodes| + 1) * 3 > slots.Length * 2 {
        Rebuild(slots.Length * 2);
      }
      Append(parent, l);
      r := Some(|nodes| - 1);
    }

    /** The rest of child, once there is room for the new node. */
    method Append(parent: nat, l: Label)
      requires |nodes| == |keys| == |paths| == |pos| < MAX_NODES && |keys| < slots.Length
      requires NodesOk(nodes, blob, keys) && PathsOk(keys, paths, at) && TableOk(hash, keys, slots[..], pos)
      requires parent < |nodes| && |l| <= MAX_LABEL && paths[parent] + [l] !in at
      requires |blob| + LongBytes(l) < TWO_32
      requires |parents| == |nodes|
      modifies this`nodes, this`blob, this`parents, this`keys, this`paths, this`at, this`pos, slots
      ensures |nodes| == |pos| == |old(nodes)| + 1
      ensures NodesOk(nodes, blob, keys) && PathsOk(keys, paths, at) && TableOk(hash, keys, slots[..], pos)
      ensures keys == old(keys) + [Key(parent, l)] && parents == old(parents) + [parent]
      ensures paths == old(paths) + [old(paths[parent]) + [l]]
      ensures TreeOf(nodes, at) == WithChild(old(TreeOf(nodes, at)), old(paths[parent]), l)
      ensures |blob| == |old(blob)| + LongBytes(l)
    {
      hide TableOk, NodesOk, PathsOk, StoreLabel, WithChild, TreeOf, NodeOk, LabelOf;
      NodesOkExtend(nodes, blob, keys, l, parent);
      PathsOkExtend(keys, paths, at, parent, l);
      var id := |nodes|;
      var (n, blob') := StoreLabel(l, blob);
      TreeOfChild(nodes, keys, paths, at, parent, l, n);
      NodesOkFlags(nodes + [n], blob', keys + [Key(parent, l)], parent);
      nodes, blob, parents := nodes + [n], blob', parents + [parent];
      nodes := nodes[parent := nodes[parent].(flags := Or(nodes[parent].flags, CHILDREN))];
      assert nodes == old(nodes)[parent := old(nodes)[parent].(flags := Or(old(nodes)[parent].flags, CHILDREN))] + [n];
      TableOkExtend(hash, keys, slots[..], pos, Key(parent, l));
      keys, paths, at := keys + [Key(parent, l)], paths + [paths[parent] + [l]], at[paths[parent] + [l] := id];
      Add(parent, l, id);
    }

    /** b.nodes[n].flags |= flag */
    method SetFlag(node: nat, f: Flags)
      requires Building() && node < |nodes|
      modifies this`nodes
      ensures Building() && Contents() == WithFlag(old(Contents()), paths[node], f)
      ensures |nodes| == |old(nodes)|
    {
      hide TableOk, NodesOk, WithFlag;
      NodesOkFlags(nodes, blob, keys, node);
      TreeOfFlag(nodes, keys, paths, at, node, f);
      nodes := nodes[node := nodes[node].(flags := Or(nodes[node].flags, f))];
    }

    /** done: the finished trie, its table sized to what it holds. */
    method Done()
      requires Building()
      modifies this
      ensures Valid() && Contents() == old(Contents()) && paths == old(paths) && |nodes| == |old(nodes)|
      ensures slots == old(slots) || fresh(slots)
      ensures 3 * slots.Length <= 4 * (3 * |nodes| / 2 + 8)
      ensures parents == []
    {
      var want := |nodes| * 3 / 2 + 8;
      if slots.Length > want * 4 / 3 {
        Rebuild(want);
      }
      parents := [];
    }
  }
}
