/**
 * Domain names as text and as labels.
 *
 * The blocklists never split a name up front: they walk it with a cursor from
 * the top level domain inwards.  `NameLabels` is the sequence of labels that
 * walk visits, so labels are listed from the TLD down to the leftmost one.
 */
module DomainName {
  import opened Octets

  type Label = Bytes
  type Path = seq<Label>

  const DOT: byte := 46
  const MAX_LABEL: nat := 63

  /** strings.LastIndexByte(s, '.'): the position of the last dot, or -1. */
  function LastDot(s: Bytes): (i: int)
    ensures -1 <= i < |s|
    ensures i >= 0 ==> s[i] == DOT
    ensures forall j :: i < j < |s| ==> s[j] != DOT
  {
    if s == [] then -1
    else if s[|s| - 1] == DOT then |s| - 1
    else LastDot(s[..|s| - 1])
  }

  /** The last dot of a text is at i, or there is none and i is -1. */
  ghost predicate LastDotAt(s: Bytes, i: int)
  {
    LastDot(s) == i
  }

  lemma DotInRange(s: Bytes, i: int)
    requires LastDotAt(s, i)
    ensures -1 <= i < |s| && (i >= 0 ==> s[i] == DOT)
  {
  }

  lemma FindLastDot(s: Bytes) returns (i: int)
    ensures LastDotAt(s, i)
  {
    i := LastDot(s);
  }

  /** The labels a right-to-left walk over a query name visits. */
  function NameLabels(name: Bytes): Path
  {
    if name == [] then []
    else
      var i := LastDot(name);
      if i < 0 then [name]
      else [name[i + 1..]] + NameLabels(name[..i])
  }

  /** The labels of a rule's base domain: the builder always takes at least one label. */
  function RuleLabels(base: Bytes): Path
  {
    if base == [] then [[]] else NameLabels(base)
  }

  /** A name as it arrives in a query: not empty, no empty label. */
  predicate WellFormed(name: Bytes)
  {
    && name != []
    && name[0] != DOT && name[|name| - 1] != DOT
    && forall i :: 0 <= i < |name| - 1 ==> name[i] != DOT || name[i + 1] != DOT
  }

  /** The text of a path: labels joined by dots, the TLD last. */
  function Text(p: Path): Bytes
  {
    if p == [] then []
    else if |p| == 1 then p[0]
    else p[|p| - 1] + [DOT] + Text(p[..|p| - 1])
  }

  function StripLeadingDot(base: Bytes): Bytes
  {
    if base != [] && base[0] == DOT then base[1..] else base
  }

  /** Text-level "name is base, or sits below it". */
  predicate AtOrBelow(name: Bytes, base: Bytes)
  {
    name == base || StrictlyBelow(name, base)
  }

  /** Text-level "name ends in a dot followed by base". */
  predicate StrictlyBelow(name: Bytes, base: Bytes)
  {
    |name| > |base| && name[|name| - |base| - 1..] == [DOT] + base
  }

  lemma {:induction false} LastDotUnique(s: Bytes, i: int)
    requires -1 <= i < |s|
    requires i >= 0 ==> s[i] == DOT
    requires forall j :: i < j < |s| ==> s[j] != DOT
    ensures LastDot(s) == i
  {
    var k := LastDot(s);
    assert !(k < i) && !(i < k);
  }

  /** Two texts with a dot between them. */
  ghost function Join(left: Bytes, right: Bytes): Bytes
  {
    left + [DOT] + right
  }

  lemma {:induction false} LastDotOfJoin(left: Bytes, right: Bytes, i: int)
    requires LastDotAt(right, i) && -1 <= i < |right|
    ensures
      var whole, j := Join(left, right), |left| + 1 + i;
      && 0 <= j < |whole| && LastDotAt(whole, j)
      && right[i + 1..] == whole[j + 1..]
      && (if i < 0 then left else Join(left, right[..i])) == whole[..j]
  {
    hide LastDot;
    JoinSlices(left, right, i);
    LastDotUnique(Join(left, right), |left| + 1 + i);
  }

  lemma JoinSlices(left: Bytes, right: Bytes, i: int)
    requires -1 <= i < |right|
    ensures
      var whole, j := left + [DOT] + right, |left| + 1 + i;
      && whole[j + 1..] == right[i + 1..]
      && whole[..j] == (if i < 0 then left else left + [DOT] + right[..i])
      && (i >= 0 ==> whole[j] == right[i]) && (i < 0 ==> whole[j] == DOT)
      && forall k :: j < k < |whole| ==> whole[k] == right[k - |left| - 1]
  {
  }

  lemma {:induction false} LabelsAtLastDot(name: Bytes, i: int)
    requires name != [] && LastDotAt(name, i)
    ensures NameLabels(name) == if i < 0 then [name] else [name[i + 1..]] + NameLabels(name[..i])
  {
  }

  /** The same with the two parts given. */
  lemma LabelsAround(name: Bytes, i: nat, front: Bytes, last: Bytes)
    requires LastDotAt(name, i) && i < |name| && last == name[i + 1..] && front == name[..i]
    ensures NameLabels(name) == [last] + NameLabels(front)
  {
    hide NameLabels, LastDotAt;
    LabelsAtLastDot(name, i);
  }

  lemma LastLabelOfJoin(left: Bytes, right: Bytes, i: int)
    requires LastDotAt(right, i) && -1 <= i < |right|
    ensures NameLabels(Join(left, right)) == [right[i + 1..]] + NameLabels(if i < 0 then left else Join(left, right[..i]))
  {
    hide NameLabels, LastDotAt, Join;
    LastDotOfJoin(left, right, i);
    LabelsAround(Join(left, right), |left| + 1 + i, if i < 0 then left else Join(left, right[..i]), right[i + 1..]);
  }

  lemma OnlyLabel(name: Bytes)
    requires name != [] && LastDotAt(name, -1)
    ensures NameLabels(name) == [name] && name[0..] == name
  {
    hide NameLabels, LastDotAt;
    LabelsAtLastDot(name, -1);
  }

  /** Splitting at a dot: the labels right of it come first. */
  lemma {:induction false} LabelsOfJoin(left: Bytes, right: Bytes)
    requires right != [] && right[0] != DOT
    ensures NameLabels(Join(left, right)) == NameLabels(right) + NameLabels(left)
    decreases |right|
  {
    hide NameLabels, LastDotAt, Join;
    var i := FindLastDot(right);
    DotInRange(right, i);
    LastLabelOfJoin(left, right, i);
    if i < 0 {
      OnlyLabel(right);
    } else {
      var rest, last := right[..i], right[i + 1..];
      LabelsAround(right, i, rest, last);
      assert rest[0] == right[0];
      LabelsOfJoin(left, rest);
      Regroup(last, NameLabels(rest), NameLabels(left));
    }
  }

  lemma Regroup(l: Label, p: Path, q: Path)
    ensures [l] + (p + q) == [l] + p + q
  {
  }

  lemma {:induction false} TextCons(l: Label, p: Path)
    requires p != []
    ensures Text([l] + p) == Text(p) + [DOT] + l
  {
    var q := [l] + p;
    if |p| == 1 {
      assert q[..1] == [l];
    } else {
      assert q[..|q| - 1] == [l] + p[..|p| - 1];
      TextCons(l, p[..|p| - 1]);
      assert Text(q) == p[|p| - 1] + [DOT] + (Text(p[..|p| - 1]) + [DOT] + l);
      assert Text(p) == p[|p| - 1] + [DOT] + Text(p[..|p| - 1]);
    }
  }

  ghost predicate NoEmptyLabel(p: Path)
  {
    forall k :: 0 <= k < |p| ==> p[k] != []
  }

  /** Joining the labels of a text gives it back, up to a dot in front. */
  lemma {:induction false} TextOfLabels(base: Bytes)
    requires base != [] && NoEmptyLabel(NameLabels(base))
    ensures Text(NameLabels(base)) == StripLeadingDot(base)
    decreases |base|
  {
    hide NameLabels, LastDot, Text;
    var i := LastDot(base);
    LabelsAtLastDot(base, i);
    TextSingle(base[i + 1..]);
    if i == 0 {
      EmptyLabels();
      assert base[..0] == [] && [base[1..]] + [] == [base[1..]];
    } else if i > 0 {
      var l, rest := base[i + 1..], NameLabels(base[..i]);
      assert forall k :: 0 <= k < |rest| ==> rest[k] == NameLabels(base)[k + 1];
      TextOfLabels(base[..i]);
      LabelsAtLastDot(base[..i], LastDot(base[..i]));
      TextCons(l, rest);
      StripJoin(base, i);
    } else {
      assert base[i + 1..] == base;
    }
  }

  lemma TextSingle(l: Label)
    ensures Text([l]) == l
  {
  }

  lemma StripJoin(base: Bytes, i: nat)
    requires 0 < i < |base| && base[i] == DOT
    ensures StripLeadingDot(base) == StripLeadingDot(base[..i]) + [DOT] + base[i + 1..]
  {
  }

  lemma EmptyLabels()
    ensures NameLabels([]) == []
  {
  }

  lemma {:induction false} WellFormedLabels(name: Bytes)
    requires WellFormed(name)
    ensures NameLabels(name) != [] && NoEmptyLabel(NameLabels(name))
    ensures Text(NameLabels(name)) == name
    decreases |name|
  {
    var i := LastDot(name);
    if i > 0 {
      assert name[i - 1] != DOT;
      WellFormedLabels(name[..i]);
    }
    TextOfLabels(name);
  }

  /**
   * A rule's labels are the first labels of a query exactly when the query, as
   * text, is the rule's base domain or ends in a dot and that base domain.
   */
  lemma {:induction false} LabelsCoverText(base: Bytes, name: Bytes)
    requires WellFormed(name)
    ensures RuleLabels(base) <= NameLabels(name) <==> AtOrBelow(name, StripLeadingDot(base))
    ensures RuleLabels(base) == NameLabels(name) <==> name == StripLeadingDot(base)
  {
    WellFormedLabels(name);
    var b := StripLeadingDot(base);
    if AtOrBelow(name, b) { TextImpliesLabels(base, name); }
    if RuleLabels(base) <= NameLabels(name) { LabelsImplyText(base, name); }
  }

  lemma {:induction false} LabelsImplyText(base: Bytes, name: Bytes)
    requires WellFormed(name)
    requires RuleLabels(base) <= NameLabels(name)
    ensures AtOrBelow(name, StripLeadingDot(base))
    ensures RuleLabels(base) == NameLabels(name) ==> name == StripLeadingDot(base)
  {
    hide WellFormed, NameLabels, RuleLabels, Text, StripLeadingDot, StrictlyBelow;
    var p, q := RuleLabels(base), NameLabels(name);
    WellFormedLabels(name);
    assert NoEmptyLabel(p) by { assert forall k :: 0 <= k < |p| ==> p[k] == q[k]; }
    NonEmptyBase(base);
    TextOfLabels(base);
    if |p| < |q| {
      TextPrefix(q, |p|);
      assert q[..|p|] == p;
    } else {
      assert p == q;
    }
  }

  lemma NonEmptyBase(base: Bytes)
    requires NoEmptyLabel(RuleLabels(base))
    ensures base != [] && RuleLabels(base) == NameLabels(base) != []
  {
    hide NameLabels;
    AtLeastOneLabel(base);
    var first := RuleLabels(base)[0];
    assert first != [];
  }

  lemma {:induction false} TextPrefix(q: Path, k: nat)
    requires 0 < k < |q|
    ensures StrictlyBelow(Text(q), Text(q[..k]))
  {
    var front := q[..|q| - 1];
    assert Text(q) == q[|q| - 1] + ([DOT] + Text(front));
    if k < |front| {
      TextPrefix(front, k);
      assert front[..k] == q[..k];
    } else {
      assert front == q[..k];
    }
  }

  lemma {:induction false} TextImpliesLabels(base: Bytes, name: Bytes)
    requires WellFormed(name)
    requires AtOrBelow(name, StripLeadingDot(base))
    ensures RuleLabels(base) <= NameLabels(name)
    ensures name == StripLeadingDot(base) ==> RuleLabels(base) == NameLabels(name)
  {
    var b := StripLeadingDot(base);
    assert b != [] && b[0] != DOT by {
      if StrictlyBelow(name, b) {
        var at := |name| - |b| - 1;
        assert name[at..][0] == DOT;
        if b != [] { assert name[at + 1] == name[at..][1] == b[0]; }
      }
    }
    StrippedLabels(base);
    if name == b {
    } else {
      var at := |name| - |b| - 1;
      assert name == name[..at] + [DOT] + b;
      LabelsOfJoin(name[..at], b);
      assert NameLabels(name[..at]) != [] by { assert name[0] != DOT; }
    }
  }

  lemma {:induction false} StrippedLabels(base: Bytes)
    requires StripLeadingDot(base) != [] && StripLeadingDot(base)[0] != DOT
    ensures RuleLabels(base) == NameLabels(StripLeadingDot(base))
  {
    if base[0] == DOT {
      LabelsOfJoin([], base[1..]);
      assert [] + [DOT] + base[1..] == base;
    }
  }

  /** The part of a well-formed name right of one of its dots. */
  lemma {:induction false} SuffixLabels(name: Bytes, i: nat)
    requires WellFormed(name) && i < |name| && name[i] == DOT
    ensures WellFormed(name[i + 1..])
    ensures NameLabels(name) == NameLabels(name[i + 1..]) + NameLabels(name[..i])
  {
    assert name == Join(name[..i], name[i + 1..]);
    LabelsOfJoin(name[..i], name[i + 1..]);
  }

  // ----- cursors -----

  lemma AtLeastOneLabel(base: Bytes)
    ensures RuleLabels(base) != []
    ensures base != [] ==> NameLabels(base) != []
  {
  }

  /** The cursor of a walk over a base domain: k labels done, the rest left of `end`. */
  ghost predicate Cursor(labels: Path, domain: Bytes, end: int, k: nat)
  {
    && 0 <= end <= |domain|
    && k < |labels|
    && labels[k..] == RuleLabels(domain[..end])
  }

  lemma CursorStart(domain: Bytes)
    ensures Cursor(RuleLabels(domain), domain, |domain|, 0)
  {
    AtLeastOneLabel(domain);
    assert domain[..|domain|] == domain;
  }

  /** Moving the cursor left past a label moves on by one label. */
  lemma {:induction false} CursorStep(labels: Path, domain: Bytes, end: nat, k: nat, i: int)
    requires Cursor(labels, domain, end, k) && LastDotAt(domain[..end], i)
    ensures
      && labels[k] == domain[i + 1..end]
      && (i <= 0 ==> k + 1 == |labels|)
      && (i > 0 ==> k + 1 < |labels| && Cursor(labels, domain, i, k + 1))
  {
    hide NameLabels, RuleLabels, LastDotAt;
    DotInRange(domain[..end], i);
    if i <= 0 {
      LastLabel(domain[..end], i);
      FirstAndRest(labels, k, domain[i + 1..end], []);
    } else {
      MoreLabels(domain[..end], i, domain[..i]);
      FirstAndRest(labels, k, domain[i + 1..end], RuleLabels(domain[..i]));
    }
  }

  lemma FirstAndRest(labels: Path, k: nat, l: Label, rest: Path)
    requires k <= |labels| && labels[k..] == [l] + rest
    ensures k < |labels| && labels[k] == l && labels[k + 1..] == rest && (k + 1 == |labels| <==> rest == [])
  {
    assert labels[k] == labels[k..][0] && labels[k + 1..] == labels[k..][1..];
  }

  lemma LastLabel(base: Bytes, i: int)
    requires LastDotAt(base, i) && -1 <= i <= 0
    ensures i + 1 <= |base| && RuleLabels(base) == [base[i + 1..]] + []
  {
    hide NameLabels, LastDotAt;
    DotInRange(base, i);
    if i < 0 && base != [] {
      OnlyLabel(base);
    }
    if i == 0 {
      EmptyLabels();
      LabelsAround(base, 0, [], base[1..]);
    }
  }

  lemma MoreLabels(base: Bytes, i: nat, front: Bytes)
    requires LastDotAt(base, i) && 0 < i < |base| && front == base[..i]
    ensures RuleLabels(base) == [base[i + 1..]] + RuleLabels(front) && RuleLabels(front) != []
  {
    hide NameLabels, LastDotAt;
    LabelsAround(base, i, front, base[i + 1..]);
    AtLeastOneLabel(front);
  }

  /** The label left of the cursor, and where the cursor goes next. */
  method NextLabel(domain: Bytes, end: nat, ghost labels: Path, ghost k: nat) returns (l: Label, i: int)
    requires Cursor(labels, domain, end, k)
    ensures k < |labels| && l == labels[k] && -1 <= i < if end == 0 then 0 else end
    ensures i <= 0 <==> k + 1 == |labels|
    ensures i > 0 ==> Cursor(labels, domain, i, k + 1)
  {
    i := LastDot(domain[..end]);
    CursorStep(labels, domain, end, k, i);
    l := domain[i + 1..end];
  }

  /** The cursor of a match: k labels of the name done, the rest left of `end`. */
  ghost predicate NameCursor(name: Bytes, end: int, k: nat)
  {
    var q := NameLabels(name);
    && end <= |name|
    && k <= |q|
    && q[k..] == if end <= 0 then [] else NameLabels(name[..end])
  }

  lemma NameCursorStart(name: Bytes, end: nat)
    requires end <= |name| && name[..end] == name
    ensures NameCursor(name, end, 0)
  {
    hide NameLabels;
    if end == 0 {
      EmptyLabels();
    }
  }

  lemma {:induction false} NameCursorEnd(name: Bytes, end: int, k: nat)
    requires NameCursor(name, end, k) && end <= 0
    ensures k == |NameLabels(name)|
    ensures WellFormed(name) ==> Text(NameLabels(name)[..k]) == name
  {
    assert NameLabels(name)[..|NameLabels(name)|] == NameLabels(name);
    if WellFormed(name) { WellFormedLabels(name); }
  }

  /** Moving the cursor of a match left past a label, and the text right of it. */
  lemma {:induction false} NameCursorStep(name: Bytes, end: nat, k: nat, i: int)
    requires NameCursor(name, end, k) && 0 < end && LastDotAt(name[..end], i)
    ensures
      var q := NameLabels(name);
      && -1 <= i < end && k < |q|
      && q[k] == name[i + 1..end]
      && NameCursor(name, i, k + 1)
      && (i > 0 <==> k + 1 < |q|)
      && (WellFormed(name) ==> name[i + 1..] == Text(q[..k + 1]))
  {
    hide WellFormed, NameLabels, Text, LastDotAt, Cursor, NameCursor;
    var q := NameLabels(name);
    CursorOfName(name, end, k);
    NameDot(name, end, i);
    CursorStep(q, name, end, k, i);
    NameOfCursor(name, i, k + 1);
    if WellFormed(name) {
      SuffixOfCursor(name, i, k + 1);
    }
  }

  lemma NameDot(name: Bytes, end: nat, i: int)
    requires 0 < end <= |name| && LastDotAt(name[..end], i)
    ensures -1 <= i < end && (i >= 0 ==> name[i] == DOT)
  {
    hide LastDotAt;
    DotInRange(name[..end], i);
  }

  lemma CursorOfName(name: Bytes, end: nat, k: nat)
    requires NameCursor(name, end, k) && 0 < end
    ensures end <= |name| && k < |NameLabels(name)| && Cursor(NameLabels(name), name, end, k)
  {
    hide NameLabels;
    AtLeastOneLabel(name[..end]);
  }

  lemma NameOfCursor(name: Bytes, i: int, k: nat)
    requires -1 <= i <= |name| && (i <= 0 ==> k == |NameLabels(name)|) && (i > 0 ==> Cursor(NameLabels(name), name, i, k))
    ensures NameCursor(name, i, k)
  {
    hide NameLabels;
  }

  lemma SuffixOfCursor(name: Bytes, i: int, k: nat)
    requires WellFormed(name) && NameCursor(name, i, k) && -1 <= i < |name| && (i >= 0 ==> name[i] == DOT)
    ensures name[i + 1..] == Text(NameLabels(name)[..k])
  {
    hide WellFormed, NameLabels, Text, NameCursor;
    if i < 0 {
      NameCursorEnd(name, i, k);
      assert name[i + 1..] == name;
    } else {
      RestOfCursor(name, i, k);
      SuffixText(name, name[..i], name[i + 1..], k);
    }
  }

  lemma RestOfCursor(name: Bytes, i: nat, k: nat)
    requires WellFormed(name) && NameCursor(name, i, k) && i < |name| && name[i] == DOT
    ensures k <= |NameLabels(name)| && NameLabels(name)[k..] == NameLabels(name[..i])
    ensures WellFormed(name[i + 1..]) && NameLabels(name) == NameLabels(name[i + 1..]) + NameLabels(name[..i])
  {
    hide WellFormed, NameLabels;
    SuffixLabels(name, i);
    if i == 0 {
      EmptyLabels();
      assert name[..0] == [];
    }
  }

  lemma SuffixText(name: Bytes, front: Bytes, last: Bytes, k: nat)
    requires WellFormed(last) && NameLabels(name) == NameLabels(last) + NameLabels(front)
    requires k <= |NameLabels(name)| && NameLabels(name)[k..] == NameLabels(front)
    ensures last == Text(NameLabels(name)[..k])
  {
    hide WellFormed, NameLabels, Text;
    WellFormedLabels(last);
    FrontOf(NameLabels(name), NameLabels(last), NameLabels(front), k);
  }

  lemma FrontOf(q: Path, a: Path, b: Path, k: nat)
    requires q == a + b && k <= |q| && q[k..] == b
    ensures q[..k] == a
  {
    assert |q[k..]| == |b|;
  }
}
