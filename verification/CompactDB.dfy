/**
 * The compact domain blocklist: the same rules and the same walk as the exact
 * one, over fingerprints of suffixes instead of nodes.
 */
module CompactDB {
  import opened Octets
  import opened DomainName
  import opened DomainRules
  import opened Fingerprints
  import DomainDB

  const RECENT_SIZE: nat := 4096

  /** The seed and the two hash steps, left uninterpreted. */
  datatype Hashing = Hashing(seed: uint64, fold: (uint64, Label) -> uint64, avalanche: uint64 -> uint64)

  /** The hash of a suffix, folded in from the TLD. */
  function PathHash(hs: Hashing, p: Path): uint64
  {
    if p == [] then hs.seed else hs.fold(PathHash(hs, p[..|p| - 1]), p[|p| - 1])
  }

  /** domainEntry */
  function Entry(hs: Hashing, h: uint64, f: Flags): (e: uint64)
    ensures Print(e) == hs.avalanche(h) / FLAG_VALUES && FlagsIn(e) == f
    ensures f != NO_FLAGS ==> e != 0
  {
    FromBitsOfBits(f);
    hs.avalanche(h) / FLAG_VALUES * FLAG_VALUES + Bits(f)
  }

  /** The fingerprint of a suffix. */
  function Fp(hs: Hashing, p: Path): nat
  {
    hs.avalanche(PathHash(hs, p)) / FLAG_VALUES
  }

  // ----- what the list records -----

  /** The flag a rule records on its k-th suffix. */
  function Mark(r: Rule, k: nat): (f: Flags)
    requires 1 <= k <= |r.labels|
    ensures f != NO_FLAGS
  {
    if k < |r.labels| then CHILDREN else KindFlag(r.kind)
  }

  function MarkEntry(hs: Hashing, r: Rule, k: nat): uint64
    requires 1 <= k <= |r.labels|
  {
    Entry(hs, PathHash(hs, r.labels[..k]), Mark(r, k))
  }

  ghost predicate IsMark(hs: Hashing, rules: seq<Rule>, e: uint64)
  {
    exists r, k :: r in rules && 1 <= k <= |r.labels| && e == MarkEntry(hs, r, k)
  }

  /** The entries recorded are exactly those of the rules so far and of the first k suffixes of one more. */
  ghost predicate RecordedUpTo(hs: Hashing, rules: seq<Rule>, rule: Rule, k: nat, entries: seq<uint64>)
    requires k <= |rule.labels|
  {
    forall e :: e in entries <==> IsMark(hs, rules, e) || exists j :: 1 <= j <= k && e == MarkEntry(hs, rule, j)
  }

  ghost predicate Recorded(hs: Hashing, rules: seq<Rule>, entries: seq<uint64>)
  {
    forall e :: e in entries <==> IsMark(hs, rules, e)
  }

  /** domainRecent: whatever sits in the cache has been recorded. */
  ghost predicate RecentOk(recent: seq<uint64>, entries: seq<uint64>)
  {
    |recent| == RECENT_SIZE && forall i :: 0 <= i < |recent| && recent[i] != 0 ==> recent[i] in entries
  }

  /** seen */
  method Seen(recent: array<uint64>, e: uint64) returns (hit: bool)
    requires recent.Length == RECENT_SIZE
    modifies recent
    ensures hit <==> e == old(recent[e / FLAG_VALUES % RECENT_SIZE])
    ensures recent[..] == old(recent[..])[e / FLAG_VALUES % RECENT_SIZE := e]
  {
    var slot := e / FLAG_VALUES % RECENT_SIZE;
    if recent[slot] == e {
      return true;
    }
    recent[slot] := e;
    return false;
  }

  /** The same entries and one more. */
  ghost predicate Plus(s: seq<uint64>, e: uint64, t: seq<uint64>)
  {
    forall x :: x in t <==> x in s || x == e
  }

  /** Recording one suffix: a repeat the cache catches is dropped, which loses nothing. */
  method RecordMark(recent: array<uint64>, entries: seq<uint64>, e: uint64) returns (entries': seq<uint64>)
    requires RecentOk(recent[..], entries) && e != 0
    modifies recent
    ensures RecentOk(recent[..], entries')
    ensures Plus(entries, e, entries')
  {
    var hit := Seen(recent, e);
    if hit {
      entries' := entries;
    } else {
      entries' := entries + [e];
    }
  }

  /** h is the hash of the first k labels. */
  ghost predicate HashUpTo(hs: Hashing, labels: Path, k: nat, h: uint64)
  {
    k <= |labels| && h == PathHash(hs, labels[..k])
  }

  /** One step of the record callback: hashes in the next label and records the suffix it ends. */
  method RecordLabel(hs: Hashing, recent: array<uint64>, entries: seq<uint64>, h: uint64, l: Label, last: bool, kind: Kind,
                     ghost rules: seq<Rule>, ghost labels: Path, ghost k: nat)
    returns (h': uint64, entries': seq<uint64>)
    requires k < |labels| && labels[k] == l && (last <==> k + 1 == |labels|)
    requires HashUpTo(hs, labels, k, h)
    requires RecentOk(recent[..], entries) && RecordedUpTo(hs, rules, Rule(labels, kind), k, entries)
    modifies recent
    ensures HashUpTo(hs, labels, k + 1, h')
    ensures RecentOk(recent[..], entries') && RecordedUpTo(hs, rules, Rule(labels, kind), k + 1, entries')
  {
    hide RecentOk, RecordedUpTo, Plus, PathHash, MarkEntry, KindFlag, Entry;
    ghost var rule := Rule(labels, kind);
    PathHashStep(hs, rule, k);
    h' := hs.fold(h, l);
    var e := Entry(hs, h', if last then KindFlag(kind) else CHILDREN);
    entries' := RecordMark(recent, entries, e);
    RecordedStep(hs, rules, rule, k, entries, entries');
  }

  /** The record callback: one entry per suffix of the base domain, from the TLD inwards. */
  method Record(hs: Hashing, recent: array<uint64>, entries0: seq<uint64>, domain: Bytes, kind: Kind, ghost rules: seq<Rule>)
    returns (entries: seq<uint64>)
    requires RecentOk(recent[..], entries0) && Recorded(hs, rules, entries0)
    modifies recent
    ensures RecentOk(recent[..], entries)
    ensures Recorded(hs, rules + [Rule(RuleLabels(domain), kind)], entries)
  {
    hide *;
    ghost var labels, k: nat := RuleLabels(domain), 0;
    var h, end, more := hs.seed, |domain|, true;
    entries := entries0;
    CursorStart(domain);
    AtLeastOneLabel(domain);
    RecordStart(hs, rules, Rule(labels, kind), entries);
    while more
      invariant 0 <= end <= |domain| && k <= |labels|
      invariant if more then k < |labels| && Cursor(labels, domain, end, k) else k == |labels|
      invariant HashUpTo(hs, labels, k, h)
      invariant RecentOk(recent[..], entries)
      invariant RecordedUpTo(hs, rules, Rule(labels, kind), k, entries)
      decreases more, end
    {
      var l, i := NextLabel(domain, end, labels, k);
      h, entries := RecordLabel(hs, recent, entries, h, l, i <= 0, kind, rules, labels, k);
      k := k + 1;
      if i <= 0 {
        more := false;
      } else {
        end := i;
      }
    }
    RecordEnd(hs, rules, Rule(labels, kind), entries);
  }

  lemma PathHashStep(hs: Hashing, r: Rule, k: nat)
    requires k < |r.labels|
    ensures PathHash(hs, r.labels[..k + 1]) == hs.fold(PathHash(hs, r.labels[..k]), r.labels[k])
    ensures MarkEntry(hs, r, k + 1) ==
            Entry(hs, PathHash(hs, r.labels[..k + 1]), if k + 1 < |r.labels| then CHILDREN else KindFlag(r.kind))
    ensures KindFlag(r.kind) != NO_FLAGS
  {
    assert r.labels[..k + 1][..k] == r.labels[..k];
  }

  lemma RecordStart(hs: Hashing, rules: seq<Rule>, rule: Rule, entries: seq<uint64>)
    requires Recorded(hs, rules, entries)
    ensures RecordedUpTo(hs, rules, rule, 0, entries)
    ensures HashUpTo(hs, rule.labels, 0, hs.seed)
  {
  }

  lemma RecordedStep(hs: Hashing, rules: seq<Rule>, rule: Rule, k: nat, entries: seq<uint64>, entries': seq<uint64>)
    requires k < |rule.labels| && RecordedUpTo(hs, rules, rule, k, entries)
    requires Plus(entries, MarkEntry(hs, rule, k + 1), entries')
    ensures RecordedUpTo(hs, rules, rule, k + 1, entries')
  {
    hide IsMark, MarkEntry;
    forall e ensures e in entries' <==> IsMark(hs, rules, e) || exists j :: 1 <= j <= k + 1 && e == MarkEntry(hs, rule, j) {
      if e == MarkEntry(hs, rule, k + 1) {
        assert 1 <= k + 1 <= k + 1;
      }
    }
  }

  lemma RecordEnd(hs: Hashing, rules: seq<Rule>, rule: Rule, entries: seq<uint64>)
    requires RecordedUpTo(hs, rules, rule, |rule.labels|, entries)
    ensures Recorded(hs, rules + [rule], entries)
  {
    hide MarkEntry;
    assert forall r :: r in rules + [rule] <==> r in rules || r == rule;
  }

  // ----- what a fingerprint stands for -----

  /** A node of the rule tree, other than the root, with the given fingerprint. */
  ghost predicate NodeWith(hs: Hashing, rules: seq<Rule>, fp: nat, p: Path)
  {
    p != [] && IsNode(rules, p) && Fp(hs, p) == fp
  }

  /** The flags of every node that shares a fingerprint, or nothing when no node has it. */
  ghost function SharedFlags(hs: Hashing, rules: seq<Rule>, fp: nat): Option<Flags>
  {
    if exists p :: NodeWith(hs, rules, fp, p) then
      Some(Flags(exists p :: NodeWith(hs, rules, fp, p) && NodeFlags(rules, p).exact,
                 exists p :: NodeWith(hs, rules, fp, p) && NodeFlags(rules, p).apexSub,
                 exists p :: NodeWith(hs, rules, fp, p) && NodeFlags(rules, p).subOnly,
                 exists p :: NodeWith(hs, rules, fp, p) && NodeFlags(rules, p).hasChildren))
    else None
  }

  ghost function CompactLookup(hs: Hashing, rules: seq<Rule>): Lookup
  {
    p => SharedFlags(hs, rules, Fp(hs, p))
  }

  ghost function CompactAnswer(hs: Hashing, rules: seq<Rule>, q: Path): Answer
  {
    Walk(CompactLookup(hs, rules), q, 0, if rules == [] then NO_FLAGS else CHILDREN)
  }

  /** What was recorded under a fingerprint is what its nodes carry. */
  lemma RecordedFlags(hs: Hashing, rules: seq<Rule>, entries: seq<uint64>, fp: nat)
    requires Recorded(hs, rules, entries)
    ensures SharedFlags(hs, rules, fp) == if Has(entries, fp) then Some(AllFlags(entries, fp)) else None
  {
    hide Fp, Entry, IsNode, NodeFlags, Print, FlagsIn;
    forall e | e in entries && Print(e) == fp
      ensures exists p :: NodeWith(hs, rules, fp, p) && Within(FlagsIn(e), NodeFlags(rules, p))
    {
      var r, k :| r in rules && 1 <= k <= |r.labels| && e == MarkEntry(hs, r, k);
      MarkAtNode(hs, rules, r, k);
      assert NodeWith(hs, rules, fp, r.labels[..k]);
    }
    forall p | NodeWith(hs, rules, fp, p)
      ensures Has(entries, fp)
      ensures NodeFlags(rules, p).exact ==> AllFlags(entries, fp).exact
      ensures NodeFlags(rules, p).apexSub ==> AllFlags(entries, fp).apexSub
      ensures NodeFlags(rules, p).subOnly ==> AllFlags(entries, fp).subOnly
      ensures NodeFlags(rules, p).hasChildren ==> AllFlags(entries, fp).hasChildren
    {
      NodeRecorded(hs, rules, entries, p);
    }
  }

  lemma MarkAtNode(hs: Hashing, rules: seq<Rule>, r: Rule, k: nat)
    requires r in rules && 1 <= k <= |r.labels|
    ensures IsNode(rules, r.labels[..k]) && Within(Mark(r, k), NodeFlags(rules, r.labels[..k]))
    ensures Print(MarkEntry(hs, r, k)) == Fp(hs, r.labels[..k]) && FlagsIn(MarkEntry(hs, r, k)) == Mark(r, k)
  {
    assert r.labels[..k] <= r.labels;
    if k == |r.labels| { assert r == Rule(r.labels[..k], r.kind); }
  }

  lemma MarkRecorded(hs: Hashing, rules: seq<Rule>, entries: seq<uint64>, r: Rule, p: Path)
    requires Recorded(hs, rules, entries) && p != [] && r in rules && p <= r.labels
    ensures Has(entries, Fp(hs, p)) && Within(Mark(r, |p|), AllFlags(entries, Fp(hs, p)))
  {
    hide Fp, Entry, Print, FlagsIn, MarkEntry;
    assert r.labels[..|p|] == p;
    var e := MarkEntry(hs, r, |p|);
    MarkAtNode(hs, rules, r, |p|);
    assert IsMark(hs, rules, e);
    assert e in entries && Print(e) == Fp(hs, p);
  }

  lemma NodeRecorded(hs: Hashing, rules: seq<Rule>, entries: seq<uint64>, p: Path)
    requires Recorded(hs, rules, entries) && p != [] && IsNode(rules, p)
    ensures Has(entries, Fp(hs, p)) && Within(NodeFlags(rules, p), AllFlags(entries, Fp(hs, p)))
  {
    hide Fp, Recorded, Has, AllFlags;
    forall r | r in rules && p <= r.labels
      ensures Has(entries, Fp(hs, p)) && Within(Mark(r, |p|), AllFlags(entries, Fp(hs, p)))
    {
      MarkRecorded(hs, rules, entries, r, p);
    }
  }

  // ----- the two theorems -----

  /** The tree of a rule list. */
  ghost function RuleTree(rules: seq<Rule>): (t: Tree)
    ensures IsTreeOf(t, rules)
  {
    map p | p in DomainDB.PathSet(rules) :: NodeFlags(rules, p)
  }

  /** For every hash: what the exact list matches, the compact one matches, and no deeper. */
  lemma CompactNeverMisses(hs: Hashing, rules: seq<Rule>, q: Path, a: Answer)
    requires forall r :: r in rules ==> r.labels != []
    requires IsAnswer(rules, q, a) && a.Hit?
    ensures CompactAnswer(hs, rules, q).Hit? && CompactAnswer(hs, rules, q).depth <= a.depth
  {
    hide SharedFlags, IsAnswer, IsTreeOf, NodeOf, NodeFlags, RuleTree, Walk;
    var t := RuleTree(rules);
    TreeAnswerCorrect(t, rules, q);
    AnswerUnique(rules, q, a, TreeAnswer(t, q));
    RootFlags(rules, t);
    forall p | p != [] && TreeLookup(t)(p).Some?
      ensures CompactLookup(hs, rules)(p).Some? && Within(TreeLookup(t)(p).value, CompactLookup(hs, rules)(p).value)
    {
      TreeAt(t, rules, p);
      NodeShows(hs, rules, p);
    }
    WalkMonotone(TreeLookup(t), CompactLookup(hs, rules), q, 0, t[[]], if rules == [] then NO_FLAGS else CHILDREN);
  }

  lemma TreeAt(t: Tree, rules: seq<Rule>, p: Path)
    requires IsTreeOf(t, rules)
    ensures At(t, p) == if IsNode(rules, p) then Some(NodeFlags(rules, p)) else None
  {
    assert At(t, p) == NodeOf(rules, p);
  }

  /** A node shows at least its own flags under its fingerprint. */
  lemma NodeShows(hs: Hashing, rules: seq<Rule>, p: Path)
    requires p != [] && IsNode(rules, p)
    ensures
      var s := SharedFlags(hs, rules, Fp(hs, p));
      s.Some? && Within(NodeFlags(rules, p), s.value)
  {
    hide Fp, IsNode, NodeFlags;
    assert NodeWith(hs, rules, Fp(hs, p), p);
  }

  /** Without a collision it shows exactly those, and what is no node shows nothing. */
  lemma NodeShowsExactly(hs: Hashing, rules: seq<Rule>, q: Path, k: nat)
    requires NoCollision(hs, rules, q) && 1 <= k <= |q|
    ensures SharedFlags(hs, rules, Fp(hs, q[..k])) ==
            if IsNode(rules, q[..k]) then Some(NodeFlags(rules, q[..k])) else None
  {
    hide Fp, IsNode, NodeFlags;
    var p := q[..k];
    if IsNode(rules, p) { assert NodeWith(hs, rules, Fp(hs, p), p); }
  }

  lemma RootFlags(rules: seq<Rule>, t: Tree)
    requires IsTreeOf(t, rules) && forall r :: r in rules ==> r.labels != []
    ensures [] in t && t[[]] == if rules == [] then NO_FLAGS else CHILDREN
  {
    assert At(t, []) == NodeOf(rules, []);
    if rules != [] { assert rules[0] in rules && [] < rules[0].labels; }
  }

  /** No suffix of the query shares its fingerprint with a different node. */
  ghost predicate NoCollision(hs: Hashing, rules: seq<Rule>, q: Path)
  {
    forall k, p :: 1 <= k <= |q| && NodeWith(hs, rules, Fp(hs, q[..k]), p) ==> p == q[..k]
  }

  /** Without a collision the compact list gives the very answer of the exact one. */
  lemma CompactExact(hs: Hashing, rules: seq<Rule>, q: Path)
    requires forall r :: r in rules ==> r.labels != []
    requires NoCollision(hs, rules, q)
    ensures IsAnswer(rules, q, CompactAnswer(hs, rules, q))
  {
    hide SharedFlags, IsAnswer, IsTreeOf, NodeOf, NodeFlags, RuleTree, Walk, NoCollision;
    var t := RuleTree(rules);
    TreeAnswerCorrect(t, rules, q);
    RootFlags(rules, t);
    forall k | 1 <= k <= |q| ensures TreeLookup(t)(q[..k]) == CompactLookup(hs, rules)(q[..k]) {
      TreeAt(t, rules, q[..k]);
      NodeShowsExactly(hs, rules, q, k);
    }
    WalkAgree(TreeLookup(t), CompactLookup(hs, rules), q, 0, t[[]]);
  }

  // ----- the database -----

  class DB {
    const hs: Hashing
    const table: Table
    ghost const rules: seq<TextRule>

    ghost predicate Valid()
      reads table, table.index
    {
      && table.Valid()
      && (table.entries == [] <==> rules == [])
      && forall fp :: SharedFlags(hs, SplitAll(rules), fp) ==
                      if Has(table.entries, fp) then Some(AllFlags(table.entries, fp)) else None
    }

    /** newDomainCompactDB: any list of rules, for any seed and hash. */
    constructor (hs: Hashing, rules: seq<TextRule>)
      requires |NodePrints(hs, SplitAll(rules))| < TWO_32
      ensures Valid() && this.hs == hs && this.rules == rules
    {
      hide RecentOk, Recorded, SharedFlags, SameFlags, Has, AllFlags, NodePrints, Prints, RuleLabels, SplitAll, StrictlySorted, StartsBucket;
      var recent := new uint64[RECENT_SIZE](_ => 0);
      var entries: seq<uint64> := [];
      ghost var rs := SplitAll(rules);
      NothingRecorded(hs, recent[..]);
      assert rs[..0] == [];
      for i := 0 to |rules|
        invariant recent.Length == RECENT_SIZE && fresh(recent)
        invariant RecentOk(recent[..], entries) && Recorded(hs, rs[..i], entries)
      {
        assert rs[..i + 1] == rs[..i] + [Split(rules[i])];
        entries := Record(hs, recent, entries, rules[i].base, rules[i].kind, rs[..i]);
      }
      assert rs[..|rules|] == rs;
      this.hs := hs;
      this.rules := rules;
      DomainDB.RuleLabelsNonEmpty(rules);
      RecordedPrints(hs, rs, entries);
      var t := new Table(entries);
      table := t;
      TableSaysWhatRulesSay(hs, rs, entries, t.entries);
    }

    /** match: the walk of the exact list, over fingerprints. */
    method Match(name: Bytes) returns (res: DomainDB.Report, ghost a: Answer)
      requires Valid()
      ensures a == CompactAnswer(hs, SplitAll(rules), NameLabels(name)) && DomainDB.Reports(name, a, res)
    {
      hide SharedFlags, Has, AllFlags, WellFormed, Text, LastDot, NameLabels, NameCursor, Walk, CompactLookup, PathHash;
      ghost var q, rs := NameLabels(name), SplitAll(rules);
      a := CompactAnswer(hs, rs, q);
      var h, end := hs.seed, |name|;
      var flags := if table.entries == [] then NO_FLAGS else CHILDREN;
      ghost var k: nat := 0;
      assert name[..|name|] == name && q[..0] == [];
      NameCursorStart(name, |name|);
      EmptyPathHash(hs);
      while end > 0
        invariant -1 <= end <= |name| && k <= |q| && NameCursor(name, end, k)
        invariant h == PathHash(hs, q[..k])
        invariant a == Walk(CompactLookup(hs, rs), q, k, flags)
        decreases end
      {
        var i := LastDot(name[..end]);
        NameCursorStep(name, end, k, i);
        CompactWalkStep(hs, rs, q, k, flags);
        if !flags.hasChildren {
          return DomainDB.NoMatch, a;
        }
        PathHashStep(hs, Rule(q, Exact), k);
        h := hs.fold(h, name[i + 1..end]);
        var found := table.Find(Entry(hs, h, NO_FLAGS));
        if found.None? {
          return DomainDB.NoMatch, a;
        }
        flags := found.value;
        var hit := RuleAt(flags, i > 0);
        if hit.Some? {
          return DomainDB.Matched(hit.value, name[i + 1..]), a;
        }
        end := i;
        k := k + 1;
      }
      NameCursorEnd(name, end, k);
      CompactWalkStep(hs, rs, q, k, flags);
      return if flags.exact then DomainDB.Matched(Exact, name) else DomainDB.NoMatch, a;
    }
  }

  /** The fingerprints of a rule tree, one per entry of the finished table. */
  ghost function NodePrints(hs: Hashing, rules: seq<Rule>): set<nat>
  {
    set p | p in DomainDB.PathSet(rules) && p != [] :: Fp(hs, p)
  }

  lemma RecordedPrints(hs: Hashing, rules: seq<Rule>, entries: seq<uint64>)
    requires Recorded(hs, rules, entries)
    ensures Prints(entries) == NodePrints(hs, rules)
  {
    hide Fp, Recorded, AllFlags;
    forall fp ensures fp in Prints(entries) <==> fp in NodePrints(hs, rules) {
      RecordedFlags(hs, rules, entries, fp);
      assert fp in Prints(entries) <==> Has(entries, fp);
      if p :| NodeWith(hs, rules, fp, p) {
        assert p in DomainDB.PathSet(rules);
      }
      if fp in NodePrints(hs, rules) {
        var p :| p in DomainDB.PathSet(rules) && p != [] && fp == Fp(hs, p);
        assert NodeWith(hs, rules, fp, p);
      }
    }
  }

  lemma EmptyPathHash(hs: Hashing)
    ensures PathHash(hs, []) == hs.seed
  {
  }

  lemma NothingRecorded(hs: Hashing, recent: seq<uint64>)
    requires |recent| == RECENT_SIZE && forall i :: 0 <= i < |recent| ==> recent[i] == 0
    ensures RecentOk(recent, []) && Recorded(hs, [], [])
  {
  }

  lemma TableSaysWhatRulesSay(hs: Hashing, rules: seq<Rule>, recorded: seq<uint64>, entries: seq<uint64>)
    requires Recorded(hs, rules, recorded) && SameFlags(entries, recorded)
    requires forall r :: r in rules ==> r.labels != []
    ensures entries == [] <==> rules == []
    ensures forall fp :: SharedFlags(hs, rules, fp) == if Has(entries, fp) then Some(AllFlags(entries, fp)) else None
  {
    hide SharedFlags, AllFlags, MarkEntry;
    forall fp ensures SharedFlags(hs, rules, fp) == if Has(entries, fp) then Some(AllFlags(entries, fp)) else None {
      RecordedFlags(hs, rules, recorded, fp);
    }
    if rules != [] {
      var e := MarkEntry(hs, rules[0], 1);
      assert IsMark(hs, rules, e);
      assert Has(recorded, Print(e)) == Has(entries, Print(e));
    } else {
      assert forall fp :: Has(entries, fp) == Has(recorded, fp) == false;
      assert entries != [] ==> Has(entries, Print(entries[0]));
    }
  }

  /** One step of the walk over fingerprints. */
  lemma CompactWalkStep(hs: Hashing, rules: seq<Rule>, q: Path, k: nat, flags: Flags)
    requires k <= |q|
    ensures Walk(CompactLookup(hs, rules), q, k, flags) ==
            if k == |q| then if flags.exact then Hit(k, Exact) else Miss
            else if !flags.hasChildren then Miss
            else
              var f := SharedFlags(hs, rules, Fp(hs, q[..k + 1]));
              if f.None? then Miss
              else if RuleAt(f.value, k + 1 < |q|).Some? then Hit(k + 1, RuleAt(f.value, k + 1 < |q|).value)
              else Walk(CompactLookup(hs, rules), q, k + 1, f.value)
  {
    hide SharedFlags;
  }
}
