/** The exact domain blocklist: building the trie from rules, and matching a name against it. */
module DomainDB {
  import opened Octets
  import opened DomainName
  import opened DomainRules
  import opened SlotTable
  import opened DomainTrie

  /** What a match reports: the rule that matched, as its kind and its base domain. */
  datatype Report = NoMatch | Matched(kind: Kind, base: Bytes)

  // ----- sizes -----

  /** The nodes of the rule tree as a finite set. */
  ghost function PathSet(rules: seq<Rule>): (s: set<Path>)
    ensures forall p :: p in s <==> IsNode(rules, p)
  {
    if rules == [] then {[]}
    else
      var front, last := rules[..|rules| - 1], rules[|rules| - 1];
      assert forall r :: r in rules <==> r in front || r == last;
      PathSet(front) + Prefixes(last.labels)
  }

  ghost function Prefixes(p: Path): (s: set<Path>)
    ensures forall x :: x in s <==> x <= p
  {
    assert forall x :: x <= p ==> x == p[..|x|];
    set k | 0 <= k <= |p| :: p[..k]
  }

  /** Octets of long labels that a rule adds to the blob, from its k-th label on. */
  ghost function NewBytes(rules: seq<Rule>, labels: Path, k: nat): nat
    requires k <= |labels|
    decreases |labels| - k
  {
    if k == |labels| then 0
    else (if IsNode(rules, labels[..k + 1]) then 0 else LongBytes(labels[k])) + NewBytes(rules, labels, k + 1)
  }

  /** The size of the blob a rule list needs: every long label once per node. */
  ghost function BlobBytes(rules: seq<Rule>): nat
  {
    if rules == [] then 0
    else BlobBytes(rules[..|rules| - 1]) + NewBytes(rules[..|rules| - 1], rules[|rules| - 1].labels, 0)
  }

  lemma {:induction false} BlobBytesMonotone(rules: seq<Rule>, n: nat)
    requires n <= |rules|
    ensures BlobBytes(rules[..n]) <= BlobBytes(rules)
    decreases |rules|
  {
    if n < |rules| {
      BlobBytesMonotone(rules[..|rules| - 1], n);
      assert rules[..|rules| - 1][..n] == rules[..n];
    } else {
      assert rules[..n] == rules;
    }
  }

  lemma {:induction false} PathSetMonotone(rules: seq<Rule>, n: nat)
    requires n <= |rules|
    ensures PathSet(rules[..n]) <= PathSet(rules)
  {
  }

  // ----- recording one rule -----

  /** What the tree of `front` says about a path once another rule has been walked in as far as `done`. */
  ghost function GrownAt(front: seq<Rule>, done: Path, p: Path): Option<Flags>
  {
    if !IsNode(front, p) && !(p <= done) then None
    else Some(NodeFlags(front, p).(hasChildren := NodeFlags(front, p).hasChildren || p < done))
  }

  ghost predicate Grown(t: Tree, front: seq<Rule>, done: Path)
  {
    forall p :: At(t, p) == GrownAt(front, done, p)
  }

  lemma GrowStep(t: Tree, front: seq<Rule>, done: Path, l: Label)
    requires Grown(t, front, done)
    ensures done in t && Grown(WithChild(t, done, l), front, done + [l])
    ensures done + [l] in t <==> IsNode(front, done + [l])
  {
    assert At(t, done) == GrownAt(front, done, done);
    var c := done + [l];
    assert At(t, c) == GrownAt(front, done, c);
    forall p ensures At(WithChild(t, done, l), p) == GrownAt(front, c, p) {
      assert At(t, p) == GrownAt(front, done, p);
      GrowStepAt(front, done, l, p);
    }
  }

  lemma GrowStepAt(front: seq<Rule>, done: Path, l: Label, p: Path)
    ensures
      var c := done + [l];
      GrownAt(front, c, p) ==
      if IsNode(front, c) then GrownAt(front, done, p)
      else if p == c then Some(NO_FLAGS)
      else if p == done then Some(Or(GrownAt(front, done, p).value, CHILDREN))
      else GrownAt(front, done, p)
  {
    var c := done + [l];
    PrefixOfExtension(p, done, l);
    if IsNode(front, c) {
      var r :| r in front && c <= r.labels;
      assert p <= c ==> p <= r.labels;
      assert p < c ==> p < r.labels;
    } else {
      assert Rule(c, Exact) !in front && Rule(c, ApexSub) !in front && Rule(c, SubOnly) !in front;
    }
  }

  lemma PrefixOfExtension(p: Path, done: Path, l: Label)
    ensures p <= done + [l] <==> p <= done || p == done + [l]
    ensures p < done + [l] <==> p <= done
  {
    if p <= done + [l] && |p| == |done| + 1 {
      assert p == done + [l];
    }
    if p <= done + [l] && |p| <= |done| {
      assert forall i :: 0 <= i < |p| ==> p[i] == (done + [l])[i] == done[i];
    }
  }

  lemma GrownToTree(t: Tree, front: seq<Rule>, rule: Rule)
    requires Grown(t, front, rule.labels)
    ensures rule.labels in t && IsTreeOf(WithFlag(t, rule.labels, KindFlag(rule.kind)), front + [rule])
  {
    assert At(t, rule.labels) == GrownAt(front, rule.labels, rule.labels);
    forall p ensures At(WithFlag(t, rule.labels, KindFlag(rule.kind)), p) == NodeOf(front + [rule], p) {
      assert At(t, p) == GrownAt(front, rule.labels, p);
      assert forall r :: r in front + [rule] <==> r in front || r == rule;
    }
  }

  /** The limit on node ids is only met by a list that needs more of them. */
  lemma CountNodes(keys: seq<Key>, paths: seq<Path>, at: map<Path, nat>)
    requires PathsOk(keys, paths, at)
    ensures |at.Keys| == |paths|
  {
    assert forall p :: p in at.Keys <==> p in paths;
    DistinctCount(paths, at.Keys);
  }

  lemma {:induction false} DistinctCount(paths: seq<Path>, s: set<Path>)
    requires forall p :: p in s <==> p in paths
    requires forall i, j :: 0 <= i < j < |paths| ==> paths[i] != paths[j]
    ensures |s| == |paths|
  {
    if paths == [] {
    } else {
      var front, last := paths[..|paths| - 1], paths[|paths| - 1];
      assert forall p :: p in paths <==> p in front || p == last;
      DistinctCount(front, s - {last});
    }
  }

  /** One step of the record callback: from a node to the child for the next label of the rule. */
  method Descend(trie: Trie, n: nat, l: Label, ghost front: seq<Rule>, ghost rule: Rule, ghost k: nat)
    returns (child: Option<nat>)
    requires trie.Building() && k < |rule.labels| && rule.labels[k] == l && |l| <= MAX_LABEL
    requires n < |trie.nodes| && trie.paths[n] == rule.labels[..k]
    requires Grown(trie.Contents(), front, rule.labels[..k])
    requires |trie.blob| + NewBytes(front, rule.labels, k) < TWO_32
    modifies trie, trie.slots
    ensures trie.Building() && (trie.slots == old(trie.slots) || fresh(trie.slots))
    ensures child.Some? ==> child.value < |trie.nodes| && trie.paths[child.value] == rule.labels[..k + 1]
    ensures child.Some? ==> Grown(trie.Contents(), front, rule.labels[..k + 1])
    ensures child.Some? ==>
              |trie.blob| + NewBytes(front, rule.labels, k + 1) == old(|trie.blob|) + NewBytes(front, rule.labels, k)
    ensures child.None? ==> |PathSet(front + [rule])| > MAX_NODES
  {
    hide TableOk, NodesOk, PathsOk, Grown, WithChild, IsNode;
    GrowStep(trie.Contents(), front, rule.labels[..k], l);
    assert rule.labels[..k] + [l] == rule.labels[..k + 1];
    child := trie.Child(n, l);
    if child.None? {
      TooMany(trie.keys, trie.paths, trie.at, trie.Contents(), front, rule, k);
    }
  }

  /** The record callback: walks the labels of a base domain from the TLD inwards and flags the last node. */
  method Record(trie: Trie, domain: Bytes, kind: Kind, ghost front: seq<Rule>) returns (ok: bool)
    requires trie.Building() && IsTreeOf(trie.Contents(), front)
    requires ShortLabels(RuleLabels(domain))
    requires |trie.blob| == BlobBytes(front)
    requires BlobBytes(front) + NewBytes(front, RuleLabels(domain), 0) < TWO_32
    modifies trie, trie.slots
    ensures trie.Building() && (trie.slots == old(trie.slots) || fresh(trie.slots))
    ensures ok ==> IsTreeOf(trie.Contents(), front + [Rule(RuleLabels(domain), kind)])
    ensures ok ==> |trie.blob| == BlobBytes(front) + NewBytes(front, RuleLabels(domain), 0)
    ensures !ok ==> |PathSet(front + [Rule(RuleLabels(domain), kind)])| > MAX_NODES
  {
    hide TableOk, NodesOk, PathsOk, Grown, WithFlag, IsTreeOf, IsNode, NewBytes, RuleLabels, LastDot, BlobBytes, PathSet, TreeOf, Cursor;
    StartGrown(trie.Contents(), front);
    RootOf(trie.nodes, trie.keys, trie.paths, trie.at);
    ghost var rule, k: nat := Rule(RuleLabels(domain), kind), 0;
    ghost var labels := rule.labels;
    var n: nat, end, more := 0, |domain|, true;
    CursorStart(domain);
    AtLeastOneLabel(domain);
    assert labels[..0] == [];
    while more
      invariant 0 <= end <= |domain| && k <= |labels|
      invariant if more then k < |labels| && Cursor(labels, domain, end, k) else k == |labels|
      invariant trie.Building() && (trie.slots == old(trie.slots) || fresh(trie.slots))
      invariant n < |trie.nodes| && trie.paths[n] == labels[..k]
      invariant Grown(trie.Contents(), front, labels[..k])
      invariant |trie.blob| + NewBytes(front, labels, k) == BlobBytes(front) + NewBytes(front, labels, 0)
      decreases more, end
    {
      var l, i := NextLabel(domain, end, labels, k);
      var child := Descend(trie, n, l, front, rule, k);
      if child.None? {
        return false;
      }
      n := child.value;
      k := k + 1;
      if i <= 0 {
        more := false;
      } else {
        end := i;
      }
    }
    assert labels[..k] == labels;
    GrownToTree(trie.Contents(), front, rule);
    trie.SetFlag(n, KindFlag(kind));
    assert NewBytes(front, labels, k) == 0 by { NewBytesEnd(front, labels); }
    ok := true;
  }

  lemma NewBytesEnd(front: seq<Rule>, labels: Path)
    ensures NewBytes(front, labels, |labels|) == 0
  {
  }

  lemma StartGrown(t: Tree, front: seq<Rule>)
    requires IsTreeOf(t, front)
    ensures Grown(t, front, [])
  {
    forall p ensures At(t, p) == GrownAt(front, [], p) {
      assert At(t, p) == NodeOf(front, p);
    }
  }

  lemma TooMany(keys: seq<Key>, paths: seq<Path>, at: map<Path, nat>, t: Tree, front: seq<Rule>, rule: Rule, k: nat)
    requires PathsOk(keys, paths, at) && t.Keys == at.Keys && k < |rule.labels|
    requires Grown(t, front, rule.labels[..k])
    requires |paths| == MAX_NODES && rule.labels[..k + 1] !in t
    ensures |PathSet(front + [rule])| > MAX_NODES
  {
    var c := rule.labels[..k + 1];
    var all, have := PathSet(front + [rule]), at.Keys + {c};
    CountNodes(keys, paths, at);
    assert rule in front + [rule];
    forall p | p in have ensures p in all {
      if p != c {
        assert At(t, p) == GrownAt(front, rule.labels[..k], p);
        assert p <= rule.labels[..k] ==> p <= rule.labels;
      }
    }
    SubsetCount(have, all);
  }

  lemma {:induction false} SubsetCount<T>(a: set<T>, b: set<T>)
    requires a <= b
    ensures |a| <= |b|
  {
    assert b == a + (b - a);
  }

  // ----- the answer, as text -----

  /**
   * What matching a name against a list must report: nothing exactly when no
   * rule covers the name; else the kind and base domain of a loaded rule that
   * covers it, no other covering rule having a shorter base domain, and the
   * apex form if that base domain carries it.
   */
  ghost predicate IsTextAnswer(rules: seq<TextRule>, name: Bytes, res: Report)
  {
    match res
    case NoMatch => forall t :: t in rules ==> !CoversText(t, name)
    case Matched(kind, base) =>
      && (exists t :: t in rules && t.kind == kind && StripLeadingDot(t.base) == base && CoversText(t, name))
      && (forall t :: t in rules && CoversText(t, name) ==> |base| <= |StripLeadingDot(t.base)|)
      && (kind != ApexSub ==> forall t :: t in rules && t.kind == ApexSub ==> StripLeadingDot(t.base) != base)
  }

  /** A report that says what an answer on labels says. */
  ghost predicate Reports(name: Bytes, a: Answer, res: Report)
  {
    match a
    case Miss => res.NoMatch?
    case Hit(d, kind) => res.Matched? && res.kind == kind && d <= |NameLabels(name)|
                         && (WellFormed(name) ==> res.base == Text(NameLabels(name)[..d]))
  }

  lemma {:induction false} TextAnswerCorrect(rules: seq<TextRule>, name: Bytes, a: Answer, res: Report)
    requires WellFormed(name) && IsAnswer(SplitAll(rules), NameLabels(name), a) && Reports(name, a, res)
    ensures IsTextAnswer(rules, name, res)
  {
    hide WellFormed, NameLabels, RuleLabels, Text, StripLeadingDot, Covers, CoversText;
    var rs, q := SplitAll(rules), NameLabels(name);
    forall t | t in rules ensures Split(t) in rs && (Covers(Split(t), q) <==> CoversText(t, name)) {
      CoversAgree(t, name);
      var i :| 0 <= i < |rules| && rules[i] == t;
      assert rs[i] == Split(t);
    }
    if a.Hit? {
      var i :| 0 <= i < |rs| && rs[i] == Rule(q[..a.depth], a.kind);
      var t0 := rules[i];
      assert t0 in rules && Split(t0) == Rule(q[..a.depth], a.kind) && CoversText(t0, name);
      CoveringBase(t0, name);
      forall t | t in rules && CoversText(t, name)
        ensures |res.base| <= |StripLeadingDot(t.base)|
        ensures StripLeadingDot(t.base) == res.base ==> RuleLabels(t.base) == q[..a.depth]
      {
        assert Split(t) in rs && Covers(Split(t), q);
        CoveringBase(t, name);
        CoveringBaseOrder(t0, t, name);
        SameBaseLabels(t0, t, name);
      }
      forall t | t in rules && t.kind == ApexSub && a.kind != ApexSub ensures StripLeadingDot(t.base) != res.base {
        if StripLeadingDot(t.base) == res.base {
          SameBaseCovers(t0, t, name);
        }
      }
    }
  }

  /** A covering rule's labels are the first labels of the name, and its base domain is their text. */
  lemma {:induction false} CoveringBase(t: TextRule, name: Bytes)
    requires WellFormed(name) && CoversText(t, name)
    ensures
      var p, q := RuleLabels(t.base), NameLabels(name);
      0 < |p| && p <= q && q[..|p|] == p && StripLeadingDot(t.base) == Text(p)
  {
    CoversAgree(t, name);
    BaseText(t, name);
  }

  /** Of two covering rules the one with fewer labels has the shorter base domain. */
  lemma {:induction false} CoveringBaseOrder(s: TextRule, t: TextRule, name: Bytes)
    requires WellFormed(name) && CoversText(s, name) && CoversText(t, name)
    requires |RuleLabels(s.base)| <= |RuleLabels(t.base)|
    ensures |StripLeadingDot(s.base)| <= |StripLeadingDot(t.base)|
  {
    hide RuleLabels, NameLabels, Text, CoversText, WellFormed;
    CoveringBase(s, name);
    CoveringBase(t, name);
    TextGrows(NameLabels(name), |RuleLabels(s.base)|, |RuleLabels(t.base)|);
  }

  /** Those with the same base domain have the same labels. */
  lemma {:induction false} SameBaseLabels(s: TextRule, t: TextRule, name: Bytes)
    requires WellFormed(name) && CoversText(s, name) && CoversText(t, name)
    requires |RuleLabels(s.base)| <= |RuleLabels(t.base)|
    ensures StripLeadingDot(s.base) == StripLeadingDot(t.base) ==> RuleLabels(s.base) == RuleLabels(t.base)
  {
    hide RuleLabels, NameLabels, Text, CoversText, WellFormed;
    CoveringBase(s, name);
    CoveringBase(t, name);
    TextGrows(NameLabels(name), |RuleLabels(s.base)|, |RuleLabels(t.base)|);
  }

  lemma {:induction false} SameBaseCovers(s: TextRule, t: TextRule, name: Bytes)
    requires WellFormed(name) && CoversText(s, name) && t.kind == ApexSub
    requires StripLeadingDot(s.base) == StripLeadingDot(t.base)
    ensures CoversText(t, name)
  {
  }

  /** The base domain of a covering rule is the text of as many labels of the name as it has. */
  lemma {:induction false} BaseText(t: TextRule, name: Bytes)
    requires WellFormed(name) && RuleLabels(t.base) <= NameLabels(name)
    ensures StripLeadingDot(t.base) == Text(NameLabels(name)[..|RuleLabels(t.base)|])
  {
    var p, q := RuleLabels(t.base), NameLabels(name);
    WellFormedLabels(name);
    assert NoEmptyLabel(p) by { assert forall k :: 0 <= k < |p| ==> p[k] == q[k]; }
    assert p[0] != [];
    TextOfLabels(t.base);
    assert q[..|p|] == p;
  }

  /** More labels, longer text. */
  lemma {:induction false} TextGrows(q: Path, m: nat, n: nat)
    requires 0 < m <= n <= |q|
    ensures |Text(q[..m])| <= |Text(q[..n])|
    ensures m < n ==> |Text(q[..m])| < |Text(q[..n])|
  {
    if m >= n {
    } else {
      TextPrefix(q[..n], m);
      assert q[..n][..m] == q[..m];
    }
  }

  // ----- the database -----

  /** So a list read from lines matches a name exactly if one of its lines is about it. */
  lemma MatchedIffLine(lines: seq<Bytes>, includeSubdomains: bool, name: Bytes, res: Report)
    requires ParseList(lines, includeSubdomains).Rules?
    requires IsTextAnswer(ParseList(lines, includeSubdomains).rules, name, res)
    ensures res.Matched? <==>
            exists i :: 0 <= i < |lines| && ParseRule(lines[i], includeSubdomains).Accepted?
                        && LineCovers(Lower(TrimDot(lines[i])), includeSubdomains, name)
  {
    hide ParseList, ParseRule, LineCovers, Lower, TrimDot, CoversText;
    ParsedListExact(lines, includeSubdomains);
    forall i | 0 <= i < |lines| && ParseRule(lines[i], includeSubdomains).Accepted?
      ensures CoversText(ParseRule(lines[i], includeSubdomains).rule, name) <==>
              LineCovers(Lower(TrimDot(lines[i])), includeSubdomains, name)
    {
      ParsedMeaning(lines[i], includeSubdomains, name);
    }
  }

  class DB {
    const trie: Trie
    ghost const rules: seq<TextRule>

    ghost predicate Valid()
      reads this, trie, trie.slots
    {
      && trie.Valid()
      && IsTreeOf(trie.Contents(), SplitAll(rules))
    }

    constructor (trie: Trie, ghost rules: seq<TextRule>)
      requires trie.Valid() && IsTreeOf(trie.Contents(), SplitAll(rules))
      ensures Valid() && this.trie == trie && this.rules == rules
    {
      this.trie := trie;
      this.rules := rules;
    }

    /** match: walks the labels of a lower-cased name from the TLD inwards, stopping at the first rule that covers it. */
    method Match(name: Bytes) returns (res: Report, ghost a: Answer)
      requires Valid()
      ensures IsAnswer(SplitAll(rules), NameLabels(name), a) && Reports(name, a, res)
      ensures WellFormed(name) ==> IsTextAnswer(rules, name, res)
    {
      res, a := Descend(name);
      RuleLabelsNonEmpty(rules);
      TreeAnswerCorrect(trie.Contents(), SplitAll(rules), NameLabels(name));
      if WellFormed(name) {
        TextAnswerCorrect(rules, name, a, res);
      }
    }

    method Descend(name: Bytes) returns (res: Report, ghost a: Answer)
      requires Valid() && [] in trie.Contents()
      ensures a == TreeAnswer(trie.Contents(), NameLabels(name)) && Reports(name, a, res)
    {
      hide TableOk, NodesOk, PathsOk, TreeOf, At, WellFormed, Text, LastDot, IsTreeOf, NameLabels, NameCursor, Walk, TreeLookup;
      ghost var q, t := NameLabels(name), trie.Contents();
      RootOf(trie.nodes, trie.keys, trie.paths, trie.at);
      a := TreeAnswer(t, q);
      var node: nat, flags, end := 0, trie.nodes[0].flags, |name|;
      ghost var k: nat := 0;
      assert name[..|name|] == name && q[..0] == [];
      NameCursorStart(name, |name|);
      while end > 0
        invariant -1 <= end <= |name| && k <= |q| && NameCursor(name, end, k)
        invariant node < |trie.nodes| && trie.paths[node] == q[..k] && flags == trie.nodes[node].flags
        invariant a == Walk(TreeLookup(t), q, k, flags)
        decreases end
      {
        var i := LastDot(name[..end]);
        NameCursorStep(name, end, k, i);
        TreeWalkStep(t, q, k, flags);
        if !flags.hasChildren {
          return NoMatch, a;
        }
        assert q[..k] + [q[k]] == q[..k + 1];
        var child, ok := trie.Find(node, name[i + 1..end]);
        if !ok {
          return NoMatch, a;
        }
        flags := trie.nodes[child].flags;
        var hit := RuleAt(flags, i > 0);
        if hit.Some? {
          return Matched(hit.value, name[i + 1..]), a;
        }
        node := child;
        end := i;
        k := k + 1;
      }
      NameCursorEnd(name, end, k);
      TreeWalkStep(t, q, k, flags);
      return if flags.exact then Matched(Exact, name) else NoMatch, a;
    }
  }

  /**
   * newDomainDB: a rule list that needs more node ids than fit in 28 bits is
   * refused; any other one becomes the trie of exactly its rules.
   */
  method NewDomainDB(rules: seq<TextRule>, hash: Hash) returns (db: DB?)
    requires forall t :: t in rules ==> ShortLabels(RuleLabels(t.base))
    requires BlobBytes(SplitAll(rules)) < TWO_32
    ensures db == null <==> |PathSet(SplitAll(rules))| > MAX_NODES
    ensures db != null ==> db.Valid() && db.rules == rules && db.trie.hash == hash
    ensures db != null ==> fresh(db) && fresh(db.trie) && fresh(db.trie.slots)
  {
    hide TableOk, NodesOk, PathsOk, PathSet, IsTreeOf, TreeOf, RuleLabels, ShortLabels, BlobBytes, NewBytes;
    ghost var rs := SplitAll(rules);
    var trie := new Trie(hash);
    assert rs[..0] == [];
    EmptyTree();
    var i := 0;
    while i < |rules|
      invariant 0 <= i <= |rules|
      invariant fresh(trie) && fresh(trie.slots) && trie.hash == hash
      invariant trie.Building() && IsTreeOf(trie.Contents(), rs[..i])
      invariant |trie.blob| == BlobBytes(rs[..i])
    {
      BlobBytesMonotone(rs, i + 1);
      assert rs[..i + 1] == rs[..i] + [rs[i]] && rs[i] == Split(rules[i]);
      BlobBytesSnoc(rs[..i], rs[i]);
      var ok := Record(trie, rules[i].base, rules[i].kind, rs[..i]);
      if !ok {
        PathSetMonotone(rs, i + 1);
        SubsetCount(PathSet(rs[..i + 1]), PathSet(rs));
        return null;
      }
      i := i + 1;
    }
    assert rs[..i] == rs;
    TreeCount(trie.nodes, trie.keys, trie.paths, trie.at, rs);
    trie.Done();
    db := new DB(trie, rules);
  }

  lemma EmptyTree()
    ensures IsTreeOf(map[[] := NO_FLAGS], [])
    ensures BlobBytes([]) == 0
  {
  }

  lemma BlobBytesSnoc(front: seq<Rule>, rule: Rule)
    ensures BlobBytes(front + [rule]) == BlobBytes(front) + NewBytes(front, rule.labels, 0)
  {
    assert (front + [rule])[..|front|] == front;
  }

  /** A finished trie has one node per path of its rule tree. */
  lemma TreeCount(nodes: seq<DomainNode>, keys: seq<Key>, paths: seq<Path>, at: map<Path, nat>, rules: seq<Rule>)
    requires PathsOk(keys, paths, at) && |nodes| == |paths| && IsTreeOf(TreeOf(nodes, at), rules)
    ensures |PathSet(rules)| == |nodes|
  {
    CountNodes(keys, paths, at);
    forall p ensures p in at <==> p in PathSet(rules) {
      assert At(TreeOf(nodes, at), p) == NodeOf(rules, p);
    }
    assert at.Keys == PathSet(rules);
  }

  lemma RuleLabelsNonEmpty(rules: seq<TextRule>)
    ensures forall r :: r in SplitAll(rules) ==> r.labels != []
  {
  }
}
