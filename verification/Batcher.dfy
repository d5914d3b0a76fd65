/**
  The greedy batcher (datagen.py, `Utils.batcher`): groups of consecutive items within a size threshold.
 */
module Batchers {
  import opened ByteStreams

  function Total<T>(s: seq<T>, size: T -> int): int {
    if s == [] then 0 else size(s[0]) + Total(s[1..], size)
  }

  lemma TotalOfOne<T>(x: T, size: T -> int)
    ensures Total([], size) == 0 && Total([x], size) == size(x)
  {
    assert [x][1..] == [];
  }

  lemma {:induction false} TotalConcat<T>(a: seq<T>, b: seq<T>, size: T -> int)
    ensures Total(a + b, size) == Total(a, size) + Total(b, size)
  {
    if a == [] {
      assert a + b == b;
    } else {
      assert (a + b)[1..] == a[1..] + b;
      TotalConcat(a[1..], b, size);
    }
  }

  lemma TotalAppend<T>(s: seq<T>, x: T, size: T -> int)
    ensures Total(s + [x], size) == Total(s, size) + size(x)
  {
    TotalConcat(s, [x], size);
    assert [x][1..] == [];
  }

  lemma {:induction false} TotalNonNegative<T(!new)>(s: seq<T>, size: T -> int)
    requires forall x :: size(x) >= 0
    ensures Total(s, size) >= 0
  {
    if s != [] { TotalNonNegative(s[1..], size); }
  }

  /** A group may be yielded if it has one item or fits the threshold. */
  predicate Fits<T>(group: seq<T>, size: T -> int, threshold: int) {
    |group| >= 2 ==> Total(group, size) <= threshold
  }

  /** No group could have taken the first item of the next one as well. */
  predicate Full<T>(group: seq<T>, next: seq<T>, size: T -> int, threshold: int) {
    next != [] && Total(group, size) + size(next[0]) > threshold
  }

  ghost predicate IsGreedy<T>(groups: seq<seq<T>>, items: seq<T>, size: T -> int, threshold: int) {
    && Flatten(groups) == items
    && (forall g :: 0 <= g < |groups| ==> Fits(groups[g], size, threshold))
    && (forall g :: 0 < g < |groups| ==> Full(groups[g - 1], groups[g], size, threshold))
  }

  /**
    Keeps the order of the items and yields them greedily.  Only the first group can be empty, and
    it is exactly when the first item alone exceeds the threshold.
   */
  method Batcher<T>(items: seq<T>, size: T -> int, threshold: int) returns (groups: seq<seq<T>>)
    ensures IsGreedy(groups, items, size, threshold)
    ensures Flatten(groups) == items
    ensures forall g :: 0 <= g < |groups| && |groups[g]| >= 2 ==> Total(groups[g], size) <= threshold
    ensures forall g :: 0 < g < |groups| ==>
                          groups[g] != [] && Total(groups[g - 1], size) + size(groups[g][0]) > threshold
    ensures groups != [] && groups[0] == [] <==> items != [] && size(items[0]) > threshold
    ensures groups == [] <==> items == []
  {
    hide Total, Flatten, InProgress, IsGreedy;
    groups := [];
    var group: seq<T>, totalSize := [], 0;
    NothingYet(size, threshold);
    for i := 0 to |items|
      invariant totalSize == Total(group, size)
      invariant (group == [] <==> i == 0) && (i == 0 ==> groups == [])
      invariant InProgress(groups, group, items[..i], size, threshold)
      invariant groups != [] && groups[0] == [] <==> i > 0 && size(items[0]) > threshold
    {
      var itemSize := size(items[i]);
      var newTotal := totalSize + itemSize;
      assert items[..i + 1] == items[..i] + [items[i]];
      TotalAppend(group, items[i], size);
      if newTotal > threshold {
        YieldGroup(groups, group, items[..i], items[i], size, threshold);
        groups := groups + [group];
        group := [items[i]];
        totalSize := itemSize;
      } else {
        KeepGroup(groups, group, items[..i], items[i], size, threshold);
        group := group + [items[i]];
        totalSize := newTotal;
      }
    }
    assert items[..|items|] == items;
    LastGroup(groups, group, items, size, threshold);
    if group != [] {
      groups := groups + [group];
    }
    GreedyInNumbers(groups, items, size, threshold);
  }

  lemma GreedyInNumbers<T>(groups: seq<seq<T>>, items: seq<T>, size: T -> int, threshold: int)
    requires IsGreedy(groups, items, size, threshold)
    ensures Flatten(groups) == items
    ensures forall g :: 0 <= g < |groups| && |groups[g]| >= 2 ==> Total(groups[g], size) <= threshold
    ensures forall g :: 0 < g < |groups| ==>
                          groups[g] != [] && Total(groups[g - 1], size) + size(groups[g][0]) > threshold
  {
    hide Total, Flatten;
    forall g | 0 < g < |groups|
      ensures groups[g] != [] && Total(groups[g - 1], size) + size(groups[g][0]) > threshold
    {
      assert Full(groups[g - 1], groups[g], size, threshold);
    }
    forall g | 0 <= g < |groups| && |groups[g]| >= 2 ensures Total(groups[g], size) <= threshold {
      assert Fits(groups[g], size, threshold);
    }
  }

  /** The groups yielded so far are full, and with the current one make up the items seen so far. */
  ghost predicate InProgress<T>(groups: seq<seq<T>>, group: seq<T>, seen: seq<T>, size: T -> int, threshold: int) {
    && Fits(group, size, threshold)
    && Flatten(groups) + group == seen
    && (seen == [] <==> group == []) && (seen == [] ==> groups == [])
    && (forall g :: 0 <= g < |groups| ==> Fits(groups[g], size, threshold))
    && (forall g :: 0 < g < |groups| ==> Full(groups[g - 1], groups[g], size, threshold))
    && (groups != [] ==> Full(groups[|groups| - 1], group, size, threshold))
  }

  lemma NothingYet<T>(size: T -> int, threshold: int)
    ensures Total([], size) == 0 && Flatten<T>([]) == []
    ensures InProgress([], [], [], size, threshold)
  {
  }

  lemma KeepGroup<T>(groups: seq<seq<T>>, group: seq<T>, seen: seq<T>, x: T, size: T -> int, threshold: int)
    requires InProgress(groups, group, seen, size, threshold) && Total(group, size) + size(x) <= threshold
    ensures InProgress(groups, group + [x], seen + [x], size, threshold)
  {
    hide Total, Flatten;
    TotalAppend(group, x, size);
    assert Flatten(groups) + (group + [x]) == (Flatten(groups) + group) + [x];
  }

  /** The group that is left over at the end is yielded unless it is empty. */
  lemma LastGroup<T>(groups: seq<seq<T>>, group: seq<T>, items: seq<T>, size: T -> int, threshold: int)
    requires InProgress(groups, group, items, size, threshold)
    ensures group == [] <==> items == []
    ensures items == [] ==> groups == []
    ensures IsGreedy(if group == [] then groups else groups + [group], items, size, threshold)
  {
    hide Total, Flatten;
    FlattenAppend(groups, group);
    if group == [] { assert Flatten(groups) + [] == Flatten(groups); }
  }

  lemma YieldGroup<T>(groups: seq<seq<T>>, group: seq<T>, seen: seq<T>, x: T, size: T -> int, threshold: int)
    requires InProgress(groups, group, seen, size, threshold) && Total(group, size) + size(x) > threshold
    ensures InProgress(groups + [group], [x], seen + [x], size, threshold)
    ensures Total([x], size) == size(x)
  {
    FlattenAppend(groups, group);
    TotalAppend([], x, size);
    assert [] + [x] == [x];
  }

  /** A split into non-empty groups that each have one item or fit the threshold. */
  ghost predicate IsValidSplit<T>(parts: seq<seq<T>>, items: seq<T>, size: T -> int, threshold: int) {
    && Flatten(parts) == items
    && forall p :: 0 <= p < |parts| ==> parts[p] != [] && (|parts[p]| >= 2 ==> Total(parts[p], size) <= threshold)
  }

  lemma TotalPrefix<T(!new)>(s: seq<T>, n: nat, size: T -> int)
    requires n <= |s| && forall x :: size(x) >= 0
    ensures Total(s[..n], size) <= Total(s, size)
    ensures Total(s[n..], size) <= Total(s, size)
  {
    assert s == s[..n] + s[n..];
    TotalConcat(s[..n], s[n..], size);
    TotalNonNegative(s[..n], size);
    TotalNonNegative(s[n..], size);
  }

  /** A group that starts no later than a full group and reaches beyond it exceeds the threshold. */
  lemma CannotOvertake<T(!new)>(part: seq<T>, lead: nat, group: seq<T>, next: seq<T>, size: T -> int, threshold: int)
    requires forall x :: size(x) >= 0
    requires Full(group, next, size, threshold)
    requires lead <= |part| && |part| - lead > |group|
    requires part[lead..][..|group| + 1] == group + [next[0]]
    ensures Total(part, size) > threshold
  {
    TotalAppend(group, next[0], size);
    TotalPrefix(part, lead, size);
    TotalPrefix(part[lead..], |group| + 1, size);
  }

  lemma FlattenNotEmpty<T>(groups: seq<seq<T>>)
    requires groups != [] && groups[0] != []
    ensures Flatten(groups) != []
  {
    assert |Flatten(groups)| == |groups[0]| + |Flatten(groups[1..])|;
  }

  lemma SameRest<T>(a: seq<T>, b: seq<T>, c: seq<T>, d: seq<T>)
    requires a + b == c + d && |a| <= |c|
    ensures b == c[|a|..] + d
  {
    assert b == (a + b)[|a|..] == (c + d)[|a|..];
  }

  /** Greedy groups of a suffix are never more than the groups of a valid split of the whole. */
  lemma {:induction false} GreedyStaysAhead<T(!new)>(groups: seq<seq<T>>, parts: seq<seq<T>>, lead: seq<T>,
                                                     size: T -> int, threshold: int)
    requires forall x :: size(x) >= 0
    requires IsGreedy(groups, Flatten(groups), size, threshold) && forall g :: 0 <= g < |groups| ==> groups[g] != []
    requires IsValidSplit(parts, lead + Flatten(groups), size, threshold)
    ensures |groups| <= |parts|
    decreases |parts|
  {
    if groups != [] { FlattenNotEmpty(groups); }
    if groups != [] && parts != [] {
      var first, rest := parts[0], parts[1..];
      var all := lead + Flatten(groups);
      assert all == first + Flatten(rest);
      if |first| <= |lead| {
        SameRest(first, Flatten(rest), lead, Flatten(groups));
        GreedyStaysAhead(groups, rest, lead[|first|..], size, threshold);
      } else {
        var e := |first| - |lead|;
        var tail := Flatten(groups[1..]);
        assert all == (lead + groups[0]) + tail;
        GreedyReach(groups, first, lead, size, threshold);
        SameRest(first, Flatten(rest), lead + groups[0], tail);
        assert (lead + groups[0])[|first|..] == groups[0][e..];
        GreedyTail(groups, size, threshold);
        GreedyStaysAhead(groups[1..], rest, groups[0][e..], size, threshold);
      }
    }
  }

  lemma GreedyTail<T>(groups: seq<seq<T>>, size: T -> int, threshold: int)
    requires groups != [] && IsGreedy(groups, Flatten(groups), size, threshold)
    ensures IsGreedy(groups[1..], Flatten(groups[1..]), size, threshold)
  {
    forall g | 0 < g < |groups[1..]| ensures Full(groups[1..][g - 1], groups[1..][g], size, threshold) {
      assert Full(groups[g], groups[g + 1], size, threshold);
    }
  }

  lemma GreedyReach<T(!new)>(groups: seq<seq<T>>, first: seq<T>, lead: seq<T>, size: T -> int, threshold: int)
    requires forall x :: size(x) >= 0
    requires groups != [] && IsGreedy(groups, Flatten(groups), size, threshold)
    requires forall g :: 0 <= g < |groups| ==> groups[g] != []
    requires Fits(first, size, threshold) && |lead| < |first|
    requires first <= lead + Flatten(groups)
    ensures |first| - |lead| <= |groups[0]|
  {
    var all := lead + Flatten(groups);
    var n := |groups[0]|;
    if |first| - |lead| > n {
      assert Flatten(groups) == groups[0] + Flatten(groups[1..]);
      assert |groups| > 1;
      assert Full(groups[0], groups[1], size, threshold);
      assert Flatten(groups)[n] == groups[1][0];
      assert first == all[..|first|];
      assert first[|lead|..][..n + 1] == groups[0] + [groups[1][0]];
      CannotOvertake(first, |lead|, groups[0], groups[1], size, threshold);
    }
  }

  /** What is left when a leading empty group is dropped. */
  function NonEmptyGroups<T>(groups: seq<seq<T>>): seq<seq<T>> {
    if groups != [] && groups[0] == [] then groups[1..] else groups
  }

  /** No valid split of the items has fewer groups than the batcher has non-empty ones. */
  lemma GreedyIsOptimal<T(!new)>(groups: seq<seq<T>>, parts: seq<seq<T>>, items: seq<T>, size: T -> int, threshold: int)
    requires forall x :: size(x) >= 0
    requires IsGreedy(groups, items, size, threshold) && forall g :: 0 < g < |groups| ==> groups[g] != []
    requires IsValidSplit(parts, items, size, threshold)
    ensures |NonEmptyGroups(groups)| <= |parts|
  {
    var kept := NonEmptyGroups(groups);
    if groups != [] && groups[0] == [] {
      GreedyTail(groups, size, threshold);
      assert Flatten(kept) == items;
    }
    assert [] + Flatten(kept) == items;
    GreedyStaysAhead(kept, parts, [], size, threshold);
  }
}
