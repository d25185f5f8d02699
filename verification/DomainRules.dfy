/**
 * Blocklist rules: how a line of a list is read, what a rule covers, and the
 * rule tree both storage formats implement.
 */
module DomainRules {
  import opened Octets
  import opened DomainName

  const STAR: byte := 42

  datatype Kind = Exact | ApexSub | SubOnly

  /** A recorded rule: the labels of its base domain and what it matches there. */
  datatype Rule = Rule(labels: Path, kind: Kind)

  /** A rule as read from the list, before its base domain is split. */
  datatype TextRule = TextRule(base: Bytes, kind: Kind)

  datatype Parsed = Skipped | Invalid(item: Bytes) | Accepted(rule: TextRule)

  datatype ParsedList = Rules(rules: seq<TextRule>) | Rejected(item: Bytes)

  // ----- reading a list -----

  function Lower(s: Bytes): Bytes
  {
    seq(|s|, i requires 0 <= i < |s| => LowerByte(s[i]))
  }

  function TrimDot(s: Bytes): Bytes
  {
    if s != [] && s[|s| - 1] == DOT then s[..|s| - 1] else s
  }

  /** strings.IndexByte */
  function IndexOf(s: Bytes, c: byte): (i: int)
    ensures -1 <= i < |s|
    ensures i >= 0 ==> s[i] == c
    ensures forall j :: 0 <= j < (if i < 0 then |s| else i) ==> s[j] != c
  {
    if s == [] then -1
    else if s[0] == c then 0
    else
      var i := IndexOf(s[1..], c);
      if i < 0 then -1 else i + 1
  }

  /** Some run of 64 octets without a dot. */
  ghost predicate HasLongRun(r: Bytes)
  {
    exists i :: LongRunAt(r, i)
  }

  ghost predicate LongRunAt(r: Bytes, i: int)
  {
    && 0 <= i && i + MAX_LABEL < |r|
    && forall j :: i <= j <= i + MAX_LABEL ==> r[j] != DOT
  }

  predicate HasOverlongLabel(r: Bytes)
    ensures HasOverlongLabel(r) <==> HasLongRun(r)
  {
    var i := IndexOf(r, DOT);
    if i < 0 then
      assert |r| > MAX_LABEL ==> LongRunAt(r, 0);
      |r| > MAX_LABEL
    else if i > MAX_LABEL then
      assert LongRunAt(r, 0);
      true
    else
      LongRunPastDot(r, i);
      HasOverlongLabel(r[i + 1..])
  }

  lemma {:induction false} LongRunPastDot(r: Bytes, i: nat)
    requires i < |r| && i <= MAX_LABEL && r[i] == DOT
    ensures HasLongRun(r) <==> HasLongRun(r[i + 1..])
  {
    if HasLongRun(r) {
      var k :| LongRunAt(r, k);
      assert !(k <= i <= k + MAX_LABEL);
      assert LongRunAt(r[i + 1..], k - i - 1);
    }
    if !HasLongRun(r) {
      SubTextNoLongRun(r, i + 1, |r|);
      assert r[i + 1..|r|] == r[i + 1..];
    }
  }

  /** One line of a list, already trimmed of white space. */
  function ParseRule(line: Bytes, includeSubdomains: bool): Parsed
  {
    var r := Lower(TrimDot(line));
    if r == [] || r == [STAR] then Skipped
    else if HasOverlongLabel(r) then Skipped
    else
      var rule := ByPrefix(r, includeSubdomains);
      var i := IndexOf(rule.base, STAR);
      if i >= 0 then Invalid(LabelAround(rule.base, i)) else Accepted(rule)
  }

  /** The prefix of a line decides what it matches, the rest is the base domain. */
  function ByPrefix(r: Bytes, includeSubdomains: bool): TextRule
    requires r != []
  {
    if |r| >= 2 && r[0] == STAR && r[1] == DOT then TextRule(r[2..], SubOnly)
    else if r[0] == DOT then TextRule(r[1..], ApexSub)
    else TextRule(r, if includeSubdomains then ApexSub else Exact)
  }

  function LabelAround(base: Bytes, i: nat): Bytes
    requires i < |base|
  {
    var end := IndexOf(base[i..], DOT);
    base[LastDot(base[..i]) + 1..if end < 0 then |base| else end + i]
  }

  /** A whole list: unusable lines are skipped, an invalid one fails the list. */
  function ParseList(lines: seq<Bytes>, includeSubdomains: bool): ParsedList
  {
    if lines == [] then Rules([])
    else
      match ParseRule(lines[0], includeSubdomains)
      case Invalid(l) => Rejected(l)
      case Skipped => ParseList(lines[1..], includeSubdomains)
      case Accepted(rule) =>
        match ParseList(lines[1..], includeSubdomains)
        case Rejected(l) => Rejected(l)
        case Rules(rest) => Rules([rule] + rest)
  }

  ghost predicate ShortLabels(p: Path)
  {
    forall k :: 0 <= k < |p| ==> |p[k]| <= MAX_LABEL
  }

  /** Without a long run of octets no label is long. */
  lemma {:induction false} NoLongRunShortLabels(s: Bytes)
    requires !HasLongRun(s)
    ensures ShortLabels(NameLabels(s))
    decreases |s|
  {
    if s == [] {
    } else {
      var i := LastDot(s);
      assert |s| - (i + 1) > MAX_LABEL ==> LongRunAt(s, i + 1);
      if i >= 0 {
        SubTextNoLongRun(s, 0, i);
        assert s[0..i] == s[..i];
        NoLongRunShortLabels(s[..i]);
      }
    }
  }

  lemma SubTextNoLongRun(s: Bytes, lo: nat, hi: nat)
    requires lo <= hi <= |s| && !HasLongRun(s)
    ensures !HasLongRun(s[lo..hi])
  {
    if HasLongRun(s[lo..hi]) {
      var k :| LongRunAt(s[lo..hi], k);
      assert forall j :: k + lo <= j <= k + lo + MAX_LABEL ==> s[j] == s[lo..hi][j - lo];
      assert LongRunAt(s, k + lo);
    }
  }

  /** A rule whose labels fit a node: at least one, none overlong, and no wildcard left in it. */
  ghost predicate Fits(t: TextRule)
  {
    RuleLabels(t.base) != [] && ShortLabels(RuleLabels(t.base)) && STAR !in t.base
  }

  lemma ParsedRuleFits(line: Bytes, includeSubdomains: bool)
    requires ParseRule(line, includeSubdomains).Accepted?
    ensures Fits(ParseRule(line, includeSubdomains).rule)
  {
    hide LastDot, Lower, TrimDot, NameLabels, HasLongRun, ShortLabels, RuleLabels;
    var r := Lower(TrimDot(line));
    var base := ParseRule(line, includeSubdomains).rule.base;
    forall start | 0 <= start <= |r| ensures !HasLongRun(r[start..]) {
      SubTextNoLongRun(r, start, |r|);
      assert r[start..|r|] == r[start..];
    }
    ShortRuleLabels(base);
  }

  lemma ShortRuleLabels(base: Bytes)
    requires !HasLongRun(base)
    ensures RuleLabels(base) != [] && ShortLabels(RuleLabels(base))
  {
    if base != [] { NoLongRunShortLabels(base); }
  }

  /** Every rule a list yields fits the trie. */
  lemma {:induction false} ParsedRulesFit(lines: seq<Bytes>, includeSubdomains: bool)
    requires ParseList(lines, includeSubdomains).Rules?
    ensures forall t :: t in ParseList(lines, includeSubdomains).rules ==> Fits(t)
  {
    hide ParseRule, Fits;
    if lines == [] {
    } else {
      ParsedRulesFit(lines[1..], includeSubdomains);
      if ParseRule(lines[0], includeSubdomains).Accepted? {
        ParsedRuleFits(lines[0], includeSubdomains);
      }
    }
  }

  // ----- what rules mean -----

  function Split(t: TextRule): Rule
  {
    Rule(RuleLabels(t.base), t.kind)
  }

  function SplitAll(ts: seq<TextRule>): (rs: seq<Rule>)
    ensures |rs| == |ts| && forall i :: 0 <= i < |ts| ==> rs[i] == Split(ts[i])
  {
    if ts == [] then [] else SplitAll(ts[..|ts| - 1]) + [Split(ts[|ts| - 1])]
  }

  /** The reference semantics on labels. */
  predicate Covers(r: Rule, q: Path)
  {
    match r.kind
    case Exact => q == r.labels
    case ApexSub => r.labels <= q
    case SubOnly => r.labels < q
  }

  /** The reference semantics on text, as the blocklist documentation words it. */
  predicate CoversText(t: TextRule, name: Bytes)
  {
    var base := StripLeadingDot(t.base);
    match t.kind
    case Exact => name == base
    case ApexSub => AtOrBelow(name, base)
    case SubOnly => StrictlyBelow(name, base)
  }

  lemma {:induction false} CoversAgree(t: TextRule, name: Bytes)
    requires WellFormed(name)
    ensures Covers(Split(t), NameLabels(name)) <==> CoversText(t, name)
  {
    LabelsCoverText(t.base, name);
  }

  // ----- what lines mean -----

  predicate EndsWith(name: Bytes, end: Bytes)
  {
    |name| >= |end| && name[|name| - |end|..] == end
  }

  /** Which names a line of a list is about, from its text alone. */
  predicate LineCovers(line: Bytes, includeSubdomains: bool, name: Bytes)
  {
    if [STAR, DOT] <= line then
      EndsWith(name, [DOT] + StripLeadingDot(line[2..]))
    else if [DOT] <= line then
      name == StripLeadingDot(line[1..]) || EndsWith(name, [DOT] + StripLeadingDot(line[1..]))
    else
      name == line || (includeSubdomains && EndsWith(name, [DOT] + line))
  }

  lemma PrefixMeaning(r: Bytes, includeSubdomains: bool, name: Bytes)
    requires r != []
    ensures CoversText(ByPrefix(r, includeSubdomains), name) <==> LineCovers(r, includeSubdomains, name)
  {
    hide StrictlyBelow, EndsWith;
    BelowIsEnding(name, StripLeadingDot(ByPrefix(r, includeSubdomains).base));
  }

  lemma BelowIsEnding(name: Bytes, base: Bytes)
    ensures StrictlyBelow(name, base) <==> EndsWith(name, [DOT] + base)
  {
  }

  /** A line is a rule unless it is empty, a bare star, overlong or has a star further on; the rule covers what the line says. */
  lemma ParsedMeaning(line: Bytes, includeSubdomains: bool, name: Bytes)
    ensures
      var r, p := Lower(TrimDot(line)), ParseRule(line, includeSubdomains);
      && (p.Skipped? <==> r == [] || r == [STAR] || HasLongRun(r))
      && (p.Invalid? <==> !p.Skipped? && STAR in if [STAR, DOT] <= r then r[2..] else r)
      && (p.Accepted? ==> (CoversText(p.rule, name) <==> LineCovers(r, includeSubdomains, name)))
  {
    hide LabelAround, Lower, TrimDot, HasLongRun, CoversText, LineCovers, IndexOf;
    var r := Lower(TrimDot(line));
    if r != [] {
      PrefixMeaning(r, includeSubdomains, name);
      StarInRest(r);
    }
  }

  lemma StarInRest(r: Bytes)
    requires r != []
    ensures r[0] == DOT ==> (STAR in r <==> STAR in r[1..])
  {
    assert r == [r[0]] + r[1..];
  }

  /** A list fails exactly on an invalid line; otherwise its rules are those of its lines. */
  lemma {:induction false} ParsedListExact(lines: seq<Bytes>, includeSubdomains: bool)
    ensures
      var list := ParseList(lines, includeSubdomains);
      && (list.Rejected? <==> exists i :: 0 <= i < |lines| && ParseRule(lines[i], includeSubdomains).Invalid?)
      && (list.Rules? ==> forall t :: t in list.rules <==>
            exists i :: 0 <= i < |lines| && ParseRule(lines[i], includeSubdomains) == Accepted(t))
  {
    hide ParseRule;
    if lines == [] {
    } else {
      var rest := lines[1..];
      ParsedListExact(rest, includeSubdomains);
      assert forall i :: 0 <= i < |rest| ==> rest[i] == lines[i + 1];
      assert forall i :: 0 < i < |lines| ==> lines[i] == rest[i - 1];
    }
  }

  // ----- the rule tree -----

  /** The four bits of a node's flag byte. */
  datatype Flags = Flags(exact: bool, apexSub: bool, subOnly: bool, hasChildren: bool)

  const NO_FLAGS := Flags(false, false, false, false)
  const CHILDREN := NO_FLAGS.(hasChildren := true)

  function KindFlag(k: Kind): Flags
  {
    match k
    case Exact => NO_FLAGS.(exact := true)
    case ApexSub => NO_FLAGS.(apexSub := true)
    case SubOnly => NO_FLAGS.(subOnly := true)
  }

  function Or(a: Flags, b: Flags): Flags
  {
    Flags(a.exact || b.exact, a.apexSub || b.apexSub, a.subOnly || b.subOnly, a.hasChildren || b.hasChildren)
  }

  /** Every flag of a is set in b. */
  predicate Within(a: Flags, b: Flags)
  {
    Or(a, b) == b
  }

  type Tree = map<Path, Flags>

  /** The nodes of a rule tree: the root and every prefix of a rule's labels. */
  ghost predicate IsNode(rules: seq<Rule>, p: Path)
  {
    p == [] || exists r :: r in rules && p <= r.labels
  }

  ghost function NodeFlags(rules: seq<Rule>, p: Path): Flags
  {
    Flags(Rule(p, Exact) in rules, Rule(p, ApexSub) in rules, Rule(p, SubOnly) in rules,
          exists r :: r in rules && p < r.labels)
  }

  /** What a rule list says about a path: nothing, or the flags of the node there. */
  ghost function NodeOf(rules: seq<Rule>, p: Path): Option<Flags>
  {
    if IsNode(rules, p) then Some(NodeFlags(rules, p)) else None
  }

  /** What a tree says about a path. */
  function At(t: Tree, p: Path): Option<Flags>
  {
    if p in t then Some(t[p]) else None
  }

  ghost predicate IsTreeOf(t: Tree, rules: seq<Rule>)
  {
    forall p :: At(t, p) == NodeOf(rules, p)
  }

  // ----- the walk -----

  datatype Answer = Miss | Hit(depth: nat, kind: Kind)

  function RuleAt(f: Flags, more: bool): Option<Kind>
  {
    if f.apexSub then Some(ApexSub)
    else if f.subOnly && more then Some(SubOnly)
    else None
  }

  type Lookup = Path -> Option<Flags>

  /** The walk over a query's labels, for any way of finding a node's flags. */
  ghost function Walk(look: Lookup, q: Path, k: nat, flags: Flags): (a: Answer)
    requires k <= |q|
    ensures a.Hit? ==> k <= a.depth <= |q|
    decreases |q| - k
  {
    if k == |q| then if flags.exact then Hit(k, Exact) else Miss
    else if !flags.hasChildren then Miss
    else
      match look(q[..k + 1])
      case None => Miss
      case Some(f) =>
        match RuleAt(f, k + 1 < |q|)
        case Some(kind) => Hit(k + 1, kind)
        case None => Walk(look, q, k + 1, f)
  }

  ghost function TreeLookup(t: Tree): Lookup
  {
    p => At(t, p)
  }

  /** One step of the walk over a tree. */
  lemma TreeWalkStep(t: Tree, q: Path, k: nat, flags: Flags)
    requires k <= |q|
    ensures Walk(TreeLookup(t), q, k, flags) ==
            if k == |q| then if flags.exact then Hit(k, Exact) else Miss
            else if !flags.hasChildren || At(t, q[..k + 1]).None? then Miss
            else
              var f := At(t, q[..k + 1]).value;
              if RuleAt(f, k + 1 < |q|).Some? then Hit(k + 1, RuleAt(f, k + 1 < |q|).value)
              else Walk(TreeLookup(t), q, k + 1, f)
  {
  }

  /** The walk over a tree, from its root. */
  ghost function TreeAnswer(t: Tree, q: Path): Answer
    requires [] in t
  {
    Walk(TreeLookup(t), q, 0, t[[]])
  }

  /**
   * What a blocklist answers for a query: a miss when no rule covers it, else
   * a covering rule with the fewest labels, the apex form first.
   */
  ghost predicate IsAnswer(rules: seq<Rule>, q: Path, a: Answer)
  {
    match a
    case Miss => forall r :: r in rules ==> !Covers(r, q)
    case Hit(d, kind) =>
      && d <= |q|
      && Rule(q[..d], kind) in rules && Covers(Rule(q[..d], kind), q)
      && (forall r :: r in rules && Covers(r, q) ==> d <= |r.labels|)
      && (kind != ApexSub ==> Rule(q[..d], ApexSub) !in rules)
  }

  /** There is only one such answer, so whatever meets IsAnswer is the answer. */
  lemma AnswerUnique(rules: seq<Rule>, q: Path, a: Answer, b: Answer)
    requires IsAnswer(rules, q, a) && IsAnswer(rules, q, b)
    ensures a == b
  {
    if a.Hit? && b.Hit? {
      var ra, rb := Rule(q[..a.depth], a.kind), Rule(q[..b.depth], b.kind);
      assert ra in rules && Covers(ra, q) && rb in rules && Covers(rb, q);
    }
  }

  /** Walking the tree of a rule list answers what the list says. */
  lemma TreeAnswerCorrect(t: Tree, rules: seq<Rule>, q: Path)
    requires IsTreeOf(t, rules)
    requires forall r :: r in rules ==> r.labels != []
    ensures [] in t && IsAnswer(rules, q, TreeAnswer(t, q))
  {
    assert At(t, []) == NodeOf(rules, []);
    assert q[..0] == [];
    WalkCorrect(t, rules, q, 0);
  }

  lemma {:induction false} WalkCorrect(t: Tree, rules: seq<Rule>, q: Path, k: nat)
    requires IsTreeOf(t, rules) && k <= |q| && q[..k] in t
    requires forall r :: r in rules && Covers(r, q) ==> |r.labels| > k || r == Rule(q, Exact)
    requires k == |q| ==> Rule(q, ApexSub) !in rules
    ensures IsAnswer(rules, q, Walk(TreeLookup(t), q, k, t[q[..k]]))
    decreases |q| - k
  {
    var flags := t[q[..k]];
    assert At(t, q[..k]) == NodeOf(rules, q[..k]);
    if k == |q| {
      assert q[..k] == q;
    } else if !flags.hasChildren {
      assert forall r :: r in rules && Covers(r, q) ==> q[..k] < r.labels;
    } else {
      var p := q[..k + 1];
      assert At(t, p) == NodeOf(rules, p);
      if p !in t {
        assert forall r :: r in rules && Covers(r, q) ==> p <= r.labels;
      } else {
        assert RuleAt(t[p], k + 1 < |q|).Some? ==> Rule(p, RuleAt(t[p], k + 1 < |q|).value) in rules;
        if RuleAt(t[p], k + 1 < |q|).None? {
          assert k + 1 == |q| ==> p == q;
          forall r | r in rules && Covers(r, q)
            ensures |r.labels| > k + 1 || r == Rule(q, Exact)
          {
            if |r.labels| == k + 1 { assert r == Rule(p, r.kind); }
          }
          WalkCorrect(t, rules, q, k + 1);
        }
      }
    }
  }

  /** Where every node shows at least the same flags, nothing that matched is missed, and it is met no later. */
  lemma {:induction false} WalkMonotone(look: Lookup, more: Lookup, q: Path, k: nat, f: Flags, g: Flags)
    requires k <= |q| && Within(f, g)
    requires forall p :: p != [] && look(p).Some? ==> more(p).Some? && Within(look(p).value, more(p).value)
    ensures
      var a, b := Walk(look, q, k, f), Walk(more, q, k, g);
      a.Hit? ==> b.Hit? && b.depth <= a.depth
    decreases |q| - k
  {
    if k < |q| && f.hasChildren && look(q[..k + 1]).Some? {
      var f', g' := look(q[..k + 1]).value, more(q[..k + 1]).value;
      if RuleAt(f', k + 1 < |q|).None? && RuleAt(g', k + 1 < |q|).None? {
        WalkMonotone(look, more, q, k + 1, f', g');
      }
    }
  }

  /** Only what a lookup says about the prefixes of the query matters. */
  lemma {:induction false} WalkAgree(look: Lookup, other: Lookup, q: Path, k: nat, f: Flags)
    requires k <= |q|
    requires forall j :: k < j <= |q| ==> look(q[..j]) == other(q[..j])
    ensures Walk(look, q, k, f) == Walk(other, q, k, f)
    decreases |q| - k
  {
    if k < |q| && f.hasChildren && look(q[..k + 1]).Some? {
      WalkAgree(look, other, q, k + 1, look(q[..k + 1]).value);
    }
  }
}
