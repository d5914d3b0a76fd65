/**
  Item ranges, their validation, and their coalescing into range groups
  (dcp_optimized.py, `_validate_and_coalesce_ranges`; constructor.py, `_coalesced_stream_total_bytes`).

  The partition into groups is characterised by `IsCoalescing`, which does not mention how it is
  computed; `CoalescingIsUnique` and `CoalescingIsMinimal` say why that is the right one.
 */
module RangeGroups {
  import opened Results
  import opened ByteStreams

  datatype ItemRange = ItemRange(start: int, end: int)
  datatype RangeGroup = RangeGroup(start: int, end: int, itemRanges: seq<ItemRange>)

  /** `max_gap_size`: a number of bytes, or `float("inf")`. */
  datatype GapLimit = AtMost(n: int) | Unlimited

  predicate Within(gap: int, limit: GapLimit) {
    match limit
    case AtMost(n) => gap <= n
    case Unlimited => true
  }

  predicate NonNegative(limit: GapLimit) {
    limit.AtMost? ==> limit.n >= 0
  }

  /** The two ranges may share a stream. */
  predicate Joins(left: ItemRange, right: ItemRange, limit: GapLimit) {
    Within(right.start - left.end, limit)
  }

  // ---------- which lists are accepted ----------

  /** Sorted, non-overlapping, of positive length and with non-negative bounds. */
  ghost predicate Acceptable(ranges: seq<ItemRange>) {
    && (forall i :: 0 <= i < |ranges| ==> 0 <= ranges[i].start < ranges[i].end)
    && (forall i, j :: 0 <= i < j < |ranges| ==> ranges[i].end <= ranges[j].start)
  }

  /** The filter `r.end != r.start`. */
  function NonEmpty(ranges: seq<ItemRange>): (r: seq<ItemRange>)
    ensures forall x :: x in r <==> x in ranges && x.start != x.end
  {
    if ranges == [] then []
    else (if ranges[0].end != ranges[0].start then [ranges[0]] else []) + NonEmpty(ranges[1..])
  }

  /** What `__init__` wants of the ranges of an object. */
  ghost predicate Servable(ranges: seq<ItemRange>) {
    NonEmpty(ranges) != [] && Acceptable(NonEmpty(ranges))
  }

  // ---------- the partition into groups ----------

  /** Neighbours inside a group are within the limit, neighbouring groups are further apart. */
  ghost predicate IsCoalescing(parts: seq<seq<ItemRange>>, ranges: seq<ItemRange>, limit: GapLimit) {
    && Flatten(parts) == ranges
    && (forall g :: 0 <= g < |parts| ==> Coherent(parts[g], limit))
    && (forall g :: 0 < g < |parts| ==> Apart(parts[g - 1], parts[g], limit))
  }

  ghost predicate Coherent(part: seq<ItemRange>, limit: GapLimit) {
    part != [] && forall k :: 0 < k < |part| ==> Joins(part[k - 1], part[k], limit)
  }

  ghost predicate Apart(left: seq<ItemRange>, right: seq<ItemRange>, limit: GapLimit) {
    left != [] && right != [] && !Joins(left[|left| - 1], right[0], limit)
  }

  /** The coalescing, built from the left. */
  function Partition(ranges: seq<ItemRange>, limit: GapLimit): (parts: seq<seq<ItemRange>>)
    ensures ranges != [] ==> parts != [] && parts[|parts| - 1] != []
    ensures ranges != [] ==> parts[|parts| - 1][|parts[|parts| - 1]| - 1] == ranges[|ranges| - 1]
  {
    if ranges == [] then []
    else if |ranges| == 1 then [ranges]
    else
      var n := |ranges| - 1;
      Extend(Partition(ranges[..n], limit), ranges[n], limit)
  }

  /** One round of the loop: `r` joins the last group or opens a new one. */
  function Extend(parts: seq<seq<ItemRange>>, r: ItemRange, limit: GapLimit): seq<seq<ItemRange>>
    requires parts != [] && parts[|parts| - 1] != []
  {
    var last := parts[|parts| - 1];
    if Joins(last[|last| - 1], r, limit) then parts[..|parts| - 1] + [last + [r]] else parts + [[r]]
  }

  lemma {:induction false} PartitionCoalesces(ranges: seq<ItemRange>, limit: GapLimit)
    ensures IsCoalescing(Partition(ranges, limit), ranges, limit)
  {
    if |ranges| == 1 {
      assert Flatten([ranges]) == ranges;
    } else if |ranges| > 1 {
      var n := |ranges| - 1;
      PartitionCoalesces(ranges[..n], limit);
      ExtendCoalesces(Partition(ranges[..n], limit), ranges[..n], ranges[n], limit);
      assert ranges[..n] + [ranges[n]] == ranges;
    }
  }

  lemma ExtendCoalesces(parts: seq<seq<ItemRange>>, ranges: seq<ItemRange>, r: ItemRange, limit: GapLimit)
    requires parts != [] && IsCoalescing(parts, ranges, limit)
    ensures IsCoalescing(Extend(parts, r, limit), ranges + [r], limit)
  {
    var m := |parts| - 1;
    var last := parts[m];
    assert parts == parts[..m] + [last];
    FlattenAppend(parts[..m], last);
    FlattenAppend(parts[..m], last + [r]);
    FlattenAppend(parts, [r]);
    assert Coherent(last, limit);
  }

  /** The first group is the longest prefix whose neighbours all join. */
  lemma FirstCut(p: seq<seq<ItemRange>>, ranges: seq<ItemRange>, limit: GapLimit)
    requires p != [] && IsCoalescing(p, ranges, limit)
    ensures 0 < |p[0]| <= |ranges| && ranges[..|p[0]|] == p[0]
    ensures forall k :: 0 < k < |p[0]| ==> Joins(ranges[k - 1], ranges[k], limit)
    ensures |p[0]| < |ranges| ==> !Joins(ranges[|p[0]| - 1], ranges[|p[0]|], limit)
    ensures IsCoalescing(p[1..], ranges[|p[0]|..], limit)
  {
    var n := |p[0]|;
    assert Coherent(p[0], limit);
    assert ranges == p[0] + Flatten(p[1..]);
    if n < |ranges| {
      assert Apart(p[0], p[1], limit);
      assert ranges[n] == Flatten(p[1..])[0] == p[1][0];
    }
    forall g | 0 < g < |p[1..]| ensures Apart(p[1..][g - 1], p[1..][g], limit) {
      assert Apart(p[g], p[g + 1], limit);
    }
  }

  /** There is only one way to coalesce a list. */
  lemma {:induction false} CoalescingIsUnique(p: seq<seq<ItemRange>>, q: seq<seq<ItemRange>>,
                                              ranges: seq<ItemRange>, limit: GapLimit)
    requires IsCoalescing(p, ranges, limit) && IsCoalescing(q, ranges, limit)
    ensures p == q
  {
    if p != [] { FirstCut(p, ranges, limit); }
    if q != [] { FirstCut(q, ranges, limit); }
    if p != [] && q != [] {
      assert |p[0]| == |q[0]|;
      CoalescingIsUnique(p[1..], q[1..], ranges[|p[0]|..], limit);
      assert p == [p[0]] + p[1..] && q == [q[0]] + q[1..];
    }
  }

  /** Any other split whose groups respect the limit has at least as many groups. */
  lemma {:induction false} CoalescingIsMinimal(p: seq<seq<ItemRange>>, q: seq<seq<ItemRange>>,
                                               ranges: seq<ItemRange>, limit: GapLimit)
    requires IsCoalescing(p, ranges, limit)
    requires Flatten(q) == ranges && forall g :: 0 <= g < |q| ==> Coherent(q[g], limit)
    ensures |p| <= |q|
    decreases |q|
  {
    if p != [] { FirstCut(p, ranges, limit); }
    if p != [] && q != [] {
      var n, m := |p[0]|, |q[0]|;
      assert ranges == q[0] + Flatten(q[1..]);
      assert Coherent(q[0], limit);
      assert ranges[..m] == q[0];
      assert m <= n;
      if m == n {
        CoalescingIsMinimal(p[1..], q[1..], ranges[n..], limit);
      } else {
        // q cuts inside p's first group: shorten that group instead of dropping it
        ShortenFirst(p, ranges, limit, m);
        CoalescingIsMinimal([p[0][m..]] + p[1..], q[1..], ranges[m..], limit);
      }
    }
  }

  lemma ShortenFirst(p: seq<seq<ItemRange>>, ranges: seq<ItemRange>, limit: GapLimit, m: nat)
    requires p != [] && IsCoalescing(p, ranges, limit) && m < |p[0]|
    ensures IsCoalescing([p[0][m..]] + p[1..], ranges[m..], limit)
  {
    var p' := [p[0][m..]] + p[1..];
    assert p'[1..] == p[1..];
    assert Coherent(p[0], limit);
    forall g | 0 < g < |p'| ensures Apart(p'[g - 1], p'[g], limit) {
      assert Apart(p[g - 1], p[g], limit);
    }
  }

  // ---------- range groups ----------

  function GroupOf(part: seq<ItemRange>): RangeGroup
    requires part != []
  {
    RangeGroup(part[0].start, part[|part| - 1].end, part)
  }

  /** The groups carry exactly the parts of the coalescing, each with its outer bounds. */
  ghost predicate AreGroupsOf(groups: seq<RangeGroup>, parts: seq<seq<ItemRange>>) {
    |groups| == |parts| && forall g :: 0 <= g < |parts| ==> parts[g] != [] && groups[g] == GroupOf(parts[g])
  }

  ghost predicate AreGroups(groups: seq<RangeGroup>, ranges: seq<ItemRange>, limit: GapLimit) {
    AreGroupsOf(groups, Partition(ranges, limit))
  }

  function GroupsOf(parts: seq<seq<ItemRange>>): (groups: seq<RangeGroup>)
    requires forall g :: 0 <= g < |parts| ==> parts[g] != []
    ensures AreGroupsOf(groups, parts)
  {
    seq(|parts|, g requires 0 <= g < |parts| => GroupOf(parts[g]))
  }

  /** The range groups of a list of items. */
  function Groups(ranges: seq<ItemRange>, limit: GapLimit): (groups: seq<RangeGroup>)
    ensures AreGroups(groups, ranges, limit)
  {
    PartitionCoalesces(ranges, limit);
    assert forall g :: 0 <= g < |Partition(ranges, limit)| ==> Coherent(Partition(ranges, limit)[g], limit);
    GroupsOf(Partition(ranges, limit))
  }

  lemma AreGroupsUnique(left: seq<RangeGroup>, right: seq<RangeGroup>, parts: seq<seq<ItemRange>>)
    requires AreGroupsOf(left, parts) && AreGroupsOf(right, parts)
    ensures left == right
  {
    forall g | 0 <= g < |parts| ensures left[g] == right[g] {
      assert left[g] == GroupOf(parts[g]);
    }
  }

  function ItemsOf(groups: seq<RangeGroup>): (parts: seq<seq<ItemRange>>)
    ensures |parts| == |groups|
  {
    seq(|groups|, g requires 0 <= g < |groups| => groups[g].itemRanges)
  }

  /**
    Coalescing in plain numbers.  The groups list the ranges in order and reach from their first item to
    their last one.  Under a limit of `n`, a gap inside a group is at most `n` and a gap between groups is
    more than `n`; without a limit there is one group.
   */
  ghost predicate InBounds(groups: seq<RangeGroup>, ranges: seq<ItemRange>, limit: GapLimit) {
    && Flatten(ItemsOf(groups)) == ranges
    && (forall g :: 0 <= g < |groups| ==>
                      var items := groups[g].itemRanges;
                      items != [] && groups[g].start == items[0].start && groups[g].end == items[|items| - 1].end)
    && (limit.Unlimited? ==> |groups| <= 1)
    && (limit.AtMost? ==>
          && (forall g, k :: 0 <= g < |groups| && 0 < k < |groups[g].itemRanges| ==>
                               groups[g].itemRanges[k].start - groups[g].itemRanges[k - 1].end <= limit.n)
          && (forall g :: 0 < g < |groups| ==> groups[g].start - groups[g - 1].end > limit.n))
  }

  lemma GroupsInBounds(ranges: seq<ItemRange>, limit: GapLimit)
    ensures InBounds(Groups(ranges, limit), ranges, limit)
  {
    hide Partition, Flatten;
    var groups, parts := Groups(ranges, limit), Partition(ranges, limit);
    PartitionCoalesces(ranges, limit);
    assert forall g :: 0 <= g < |groups| ==> groups[g] == GroupOf(parts[g]);
    assert ItemsOf(groups) == parts;
    forall g | 0 <= g < |groups|
      ensures parts[g] != [] && groups[g].start == parts[g][0].start && groups[g].end == parts[g][|parts[g]| - 1].end
      ensures limit.AtMost? ==> forall k :: 0 < k < |parts[g]| ==> parts[g][k].start - parts[g][k - 1].end <= limit.n
    {
      assert Coherent(parts[g], limit);
      forall k | 0 < k < |parts[g]| ensures Joins(parts[g][k - 1], parts[g][k], limit) {}
    }
    if |groups| > 1 { assert Apart(parts[0], parts[1], limit); }
    forall g | 0 < g < |groups| ensures limit.AtMost? ==> groups[g].start - groups[g - 1].end > limit.n {
      assert Apart(parts[g - 1], parts[g], limit);
    }
  }

  /** Two ranges one byte apart do not share a stream under a limit of nought. */
  lemma OneByteGapIsKept()
    ensures var groups := Groups([ItemRange(0, 10), ItemRange(11, 20)], AtMost(0));
            && groups == [RangeGroup(0, 10, [ItemRange(0, 10)]), RangeGroup(11, 20, [ItemRange(11, 20)])]
            && TotalWidth(groups) == 19
  {
    var a, b := ItemRange(0, 10), ItemRange(11, 20);
    var ranges, limit := [a, b], AtMost(0);
    assert ranges[..1] == [a];
    assert Partition([a], limit) == [[a]];
    assert Partition(ranges, limit) == [[a], [b]];
    var groups := Groups(ranges, limit);
    assert groups[0] == GroupOf([a]) && groups[1] == GroupOf([b]);
    assert groups[..1][..0] == [];
  }

  function TotalWidth(groups: seq<RangeGroup>): int {
    if groups == [] then 0 else TotalWidth(groups[..|groups| - 1]) + groups[|groups| - 1].end - groups[|groups| - 1].start
  }

  /** `group_start_to_group`: the start of every group, and of nothing else, leads to that group. */
  ghost predicate IsStartTable(table: map<int, RangeGroup>, groups: seq<RangeGroup>) {
    && (forall g :: 0 <= g < |groups| ==> groups[g].start in table && table[groups[g].start] == groups[g])
    && (forall s :: s in table ==> exists g :: 0 <= g < |groups| && groups[g].start == s)
  }

  /** What the validation in the loop checks, step by step. */
  predicate Validates(ranges: seq<ItemRange>) {
    ranges == []
    || (&& 0 <= ranges[0].start <= ranges[0].end
        && forall i :: 0 < i < |ranges| ==> ranges[i].start < ranges[i].end && ranges[i - 1].end <= ranges[i].start)
  }

  lemma {:induction false} NeighboursSorted(ranges: seq<ItemRange>, i: nat, j: nat)
    requires Validates(ranges) && i < j < |ranges|
    ensures ranges[i].end <= ranges[j].start
    decreases j
  {
    if i + 1 < j {
      NeighboursSorted(ranges, i, j - 1);
    }
  }

  /**
    For every list: acceptable means that the step-by-step checks pass and the first range is not empty.
    The first range is the only one whose length is not checked.
   */
  lemma ValidatesIffAcceptable(ranges: seq<ItemRange>)
    ensures Acceptable(ranges) <==> Validates(ranges) && (ranges == [] || ranges[0].start < ranges[0].end)
  {
    if Validates(ranges) {
      forall i, j | 0 <= i < j < |ranges| ensures ranges[i].end <= ranges[j].start {
        NeighboursSorted(ranges, i, j);
      }
      forall i | 0 < i < |ranges| ensures 0 <= ranges[i].start < ranges[i].end {
        NeighboursSorted(ranges, 0, i);
      }
    }
  }

  /** What `__init__` passes on has been filtered: there the checks accept exactly the acceptable lists. */
  lemma FilteredValidates(ranges: seq<ItemRange>)
    ensures Validates(NonEmpty(ranges)) <==> Acceptable(NonEmpty(ranges))
  {
    ValidatesIffAcceptable(NonEmpty(ranges));
    if NonEmpty(ranges) != [] { assert NonEmpty(ranges)[0] in NonEmpty(ranges); }
  }

  /** A list the checks let through, called directly, although its only range is empty. */
  lemma EmptyFirstRangePasses()
    ensures Validates([ItemRange(5, 5)]) && !Acceptable([ItemRange(5, 5)])
  {
    assert [ItemRange(5, 5)][0] == ItemRange(5, 5);
  }

  /** After `k` ranges: the finished groups, and the items of the group still being filled. */
  ghost predicate Grouped(ranges: seq<ItemRange>, k: nat, limit: GapLimit, groups: seq<RangeGroup>,
                          items: seq<ItemRange>) {
    && 0 < k <= |ranges|
    && items != [] && items[|items| - 1] == ranges[k - 1]
    && AreGroups(groups + [GroupOf(items)], ranges[..k], limit)
  }

  /** One round of either loop. */
  lemma GroupedStep(ranges: seq<ItemRange>, k: nat, limit: GapLimit, groups: seq<RangeGroup>, items: seq<ItemRange>)
    requires k < |ranges| && Grouped(ranges, k, limit, groups, items)
    ensures if Joins(ranges[k - 1], ranges[k], limit) then Grouped(ranges, k + 1, limit, groups, items + [ranges[k]])
            else Grouped(ranges, k + 1, limit, groups + [GroupOf(items)], [ranges[k]])
  {
    assert ranges[..k + 1][..k] == ranges[..k];
    var parts := Partition(ranges[..k], limit);
    var all := groups + [GroupOf(items)];
    assert parts[|parts| - 1] == items by {
      assert all[|parts| - 1] == GroupOf(parts[|parts| - 1]);
    }
    var parts' := Partition(ranges[..k + 1], limit);
    assert parts' == Extend(parts, ranges[k], limit);
    var all' := if Joins(ranges[k - 1], ranges[k], limit) then groups + [GroupOf(items + [ranges[k]])]
    else all + [GroupOf([ranges[k]])];
    forall g | 0 <= g < |parts'| ensures parts'[g] != [] && all'[g] == GroupOf(parts'[g]) {
      if g < |groups| { assert all[g] == GroupOf(parts[g]); }
    }
  }

  lemma GroupedStart(ranges: seq<ItemRange>, limit: GapLimit)
    requires ranges != []
    ensures Grouped(ranges, 1, limit, [], [ranges[0]])
  {
    assert ranges[..1] == [ranges[0]];
  }

  ghost predicate CheckedUpTo(ranges: seq<ItemRange>, k: nat) {
    && 0 < k <= |ranges| && 0 <= ranges[0].start <= ranges[0].end
    && forall i :: 0 < i < k ==> ranges[i].start < ranges[i].end && ranges[i - 1].end <= ranges[i].start
  }

  lemma StartTableExtends(table: map<int, RangeGroup>, groups: seq<RangeGroup>, group: RangeGroup)
    requires IsStartTable(table, groups)
    requires forall g :: 0 <= g < |groups| ==> groups[g].start < group.start
    ensures IsStartTable(table[group.start := group], groups + [group])
  {
    var table', groups' := table[group.start := group], groups + [group];
    assert groups'[|groups|] == group;
    forall s | s in table' ensures exists g :: 0 <= g < |groups'| && groups'[g].start == s {
      if s != group.start {
        var g :| 0 <= g < |groups| && groups[g].start == s;
        assert groups'[g].start == s;
      }
    }
  }

  lemma EmptyPartition(limit: GapLimit)
    ensures Partition([], limit) == [] && Groups([], limit) == []
  {
  }

  /** Accepts exactly the lists `Validates` describes, and builds the groups and the start table. */
  method ValidateAndCoalesceRanges(ranges: seq<ItemRange>, limit: GapLimit)
    returns (r: Result<seq<RangeGroup>>, table: map<int, RangeGroup>)
    requires NonNegative(limit)
    ensures r.Ok? <==> Validates(ranges)
    ensures r.Ok? ==> r.value == Groups(ranges, limit) && IsStartTable(table, r.value)
    ensures r.Ok? ==> InBounds(r.value, ranges, limit)
    ensures r.Ok? ==> forall start :: start in table <==> exists g :: 0 <= g < |r.value| && r.value[g].start == start
  {
    hide Partition, InBounds;
    table := map[];
    if ranges == [] {
      EmptyPartition(limit);
      GroupsInBounds(ranges, limit);
      return Ok([]), table;
    }
    var groups: seq<RangeGroup> := [];
    var items := [ranges[0]];
    if !(0 <= ranges[0].start <= ranges[0].end) {
      return Err(ValueError), table;
    }
    GroupedStart(ranges, limit);
    for k := 1 to |ranges|
      invariant CheckedUpTo(ranges, k)
      invariant Grouped(ranges, k, limit, groups, items)
      invariant IsStartTable(table, groups)
      invariant forall g :: 0 <= g < |groups| ==> groups[g].start < items[0].start
      invariant items[0].start <= ranges[k - 1].end
    {
      var item := ranges[k];
      if item.end <= item.start {
        return Err(ValueError), table;
      }
      if item.start < items[|items| - 1].end {
        return Err(ValueError), table;
      }
      GroupedStep(ranges, k, limit, groups, items);
      if Joins(items[|items| - 1], item, limit) {
        items := items + [item];
      } else {
        var group := RangeGroup(items[0].start, items[|items| - 1].end, items);
        StartTableExtends(table, groups, group);
        groups := groups + [group];
        table := table[items[0].start := group];
        items := [item];
      }
    }
    assert ranges[..|ranges|] == ranges;
    var finalGroup := RangeGroup(items[0].start, items[|items| - 1].end, items);
    StartTableExtends(table, groups, finalGroup);
    table := table[items[0].start := finalGroup];
    groups := groups + [finalGroup];
    AreGroupsUnique(groups, Groups(ranges, limit), Partition(ranges, limit));
    GroupsInBounds(ranges, limit);
    return Ok(groups), table;
  }

  // ---------- the progress total ----------

  lemma {:induction false} TotalWidthAppend(groups: seq<RangeGroup>, g: RangeGroup)
    ensures TotalWidth(groups + [g]) == TotalWidth(groups) + g.end - g.start
  {
    assert (groups + [g])[..|groups|] == groups;
  }

  /** The total shown by the progress bar is the summed width of the range groups. */
  method CoalescedStreamTotalBytes(ranges: seq<ItemRange>, limit: GapLimit) returns (total: int)
    ensures total == TotalWidth(Groups(NonEmpty(ranges), limit))
    ensures InBounds(Groups(NonEmpty(ranges), limit), NonEmpty(ranges), limit)
  {
    hide Partition, InBounds, Grouped, TotalWidth, Groups;
    GroupsInBounds(NonEmpty(ranges), limit);
    var kept := NonEmpty(ranges);
    NoGroups(limit);
    if kept == [] {
      return 0;
    }
    total := 0;
    var groupStart, groupEnd := kept[0].start, kept[0].end;
    ghost var done: seq<RangeGroup>, items: seq<ItemRange> := [], [kept[0]];
    GroupedStart(kept, limit);
    for k := 1 to |kept|
      invariant Grouped(kept, k, limit, done, items)
      invariant items != [] && items[0].start == groupStart
      invariant items[|items| - 1] == kept[k - 1] && kept[k - 1].end == groupEnd
      invariant total == TotalWidth(done)
    {
      GroupedStep(kept, k, limit, done, items);
      if Within(kept[k].start - groupEnd, limit) {
        groupEnd := kept[k].end;
        items := items + [kept[k]];
      } else {
        TotalWidthAppend(done, GroupOf(items));
        total := total + (groupEnd - groupStart);
        groupStart, groupEnd := kept[k].start, kept[k].end;
        done, items := done + [GroupOf(items)], [kept[k]];
      }
    }
    WidthWhenGrouped(kept, limit, done, items);
    return total + groupEnd - groupStart;
  }

  lemma NoGroups(limit: GapLimit)
    ensures TotalWidth([]) == 0 && Groups([], limit) == []
  {
  }

  lemma WidthWhenGrouped(ranges: seq<ItemRange>, limit: GapLimit, done: seq<RangeGroup>, items: seq<ItemRange>)
    requires Grouped(ranges, |ranges|, limit, done, items)
    ensures items != []
    ensures TotalWidth(Groups(ranges, limit)) == TotalWidth(done) + items[|items| - 1].end - items[0].start
  {
    assert ranges[..|ranges|] == ranges;
    TotalWidthAppend(done, GroupOf(items));
    AreGroupsUnique(Groups(ranges, limit), done + [GroupOf(items)], Partition(ranges, limit));
  }

  // ---------- items inside their groups ----------

  /** The loop opens a group at item `i`. */
  predicate StartsGroup(ranges: seq<ItemRange>, limit: GapLimit, i: nat)
    requires i < |ranges|
  {
    i == 0 || !Joins(ranges[i - 1], ranges[i], limit)
  }

  /** Index of the first item of group `g`. */
  ghost function FirstOf(ranges: seq<ItemRange>, limit: GapLimit, g: nat): nat
    requires g <= |Partition(ranges, limit)|
  {
    |Flatten(Partition(ranges, limit)[..g])|
  }

  ghost predicate InGroup(ranges: seq<ItemRange>, limit: GapLimit, g: nat, i: nat) {
    g < |Partition(ranges, limit)| && FirstOf(ranges, limit, g) <= i < FirstOf(ranges, limit, g + 1)
  }

  /** Group `g` covers exactly the items from `FirstOf(g)` up to `FirstOf(g + 1)`. */
  lemma GroupItems(ranges: seq<ItemRange>, limit: GapLimit, g: nat)
    requires g < |Partition(ranges, limit)|
    ensures FirstOf(ranges, limit, g) < FirstOf(ranges, limit, g + 1) <= |ranges|
    ensures ranges[FirstOf(ranges, limit, g)..FirstOf(ranges, limit, g + 1)] == Partition(ranges, limit)[g]
    ensures Groups(ranges, limit)[g].start == ranges[FirstOf(ranges, limit, g)].start
    ensures Groups(ranges, limit)[g].end == ranges[FirstOf(ranges, limit, g + 1) - 1].end
  {
    hide Partition, Groups, Flatten;
    var parts := Partition(ranges, limit);
    PartitionCoalesces(ranges, limit);
    FlattenSegment(parts, g);
    assert Coherent(parts[g], limit);
    assert AreGroups(Groups(ranges, limit), ranges, limit);
    assert Groups(ranges, limit)[g] == GroupOf(parts[g]);
    var lo, hi := FirstOf(ranges, limit, g), FirstOf(ranges, limit, g + 1);
    assert ranges[lo..hi][0] == ranges[lo] && ranges[lo..hi][hi - lo - 1] == ranges[hi - 1];
  }

  lemma InGroupStarts(ranges: seq<ItemRange>, limit: GapLimit, g: nat, i: nat)
    requires InGroup(ranges, limit, g, i)
    ensures i < |ranges| && (StartsGroup(ranges, limit, i) <==> i == FirstOf(ranges, limit, g))
  {
    hide Partition, Groups, FirstOf;
    var parts := Partition(ranges, limit);
    PartitionCoalesces(ranges, limit);
    GroupItems(ranges, limit, g);
    var lo, hi := FirstOf(ranges, limit, g), FirstOf(ranges, limit, g + 1);
    assert Coherent(parts[g], limit);
    if i > lo {
      assert Joins(parts[g][i - 1 - lo], parts[g][i - lo], limit);
      assert ranges[lo..hi][i - 1 - lo] == ranges[i - 1] && ranges[lo..hi][i - lo] == ranges[i];
    } else {
      FirstOfStarts(ranges, limit, g, i);
    }
  }

  /** The first item of a group starts it. */
  lemma FirstOfStarts(ranges: seq<ItemRange>, limit: GapLimit, g: nat, i: nat)
    requires InGroup(ranges, limit, g, i) && i == FirstOf(ranges, limit, g)
    ensures i < |ranges| && StartsGroup(ranges, limit, i)
  {
    hide Groups;
    var parts := Partition(ranges, limit);
    if g > 0 {
      PartitionCoalesces(ranges, limit);
      GroupItems(ranges, limit, g);
      GroupItems(ranges, limit, g - 1);
      assert Apart(parts[g - 1], parts[g], limit);
      var lo', lo, hi := FirstOf(ranges, limit, g - 1), FirstOf(ranges, limit, g), FirstOf(ranges, limit, g + 1);
      assert ranges[lo'..lo][lo - lo' - 1] == ranges[lo - 1];
      assert ranges[lo..hi][0] == ranges[lo];
    } else {
      assert parts[..0] == [];
    }
  }

  /** The first item opens group 0; stepping on stays in the group or enters the next one. */
  lemma NextInGroup(ranges: seq<ItemRange>, limit: GapLimit, g: nat, i: nat)
    requires InGroup(ranges, limit, g, i)
    ensures i + 1 < |ranges| && !StartsGroup(ranges, limit, i + 1) ==> InGroup(ranges, limit, g, i + 1)
    ensures i + 1 < |ranges| && StartsGroup(ranges, limit, i + 1) ==>
              InGroup(ranges, limit, g + 1, i + 1) && i + 1 == FirstOf(ranges, limit, g + 1)
    ensures i + 1 == |ranges| ==> g + 1 == |Partition(ranges, limit)|
    ensures i + 1 == |ranges| || (i + 1 < |ranges| && StartsGroup(ranges, limit, i + 1)) ==>
              ranges[i].end == Groups(ranges, limit)[g].end
  {
    hide Partition, Groups, StartsGroup, Acceptable;
    var parts := Partition(ranges, limit);
    PartitionCoalesces(ranges, limit);
    GroupItems(ranges, limit, g);
    if i + 1 < FirstOf(ranges, limit, g + 1) {
      InGroupStarts(ranges, limit, g, i + 1);
    } else if g + 1 < |parts| {
      GroupItems(ranges, limit, g + 1);
      InGroupStarts(ranges, limit, g + 1, i + 1);
    } else {
      assert parts[..g + 1] == parts;
    }
  }

  lemma FirstInGroup(ranges: seq<ItemRange>, limit: GapLimit)
    requires ranges != []
    ensures InGroup(ranges, limit, 0, 0) && FirstOf(ranges, limit, 0) == 0
  {
    assert Partition(ranges, limit)[..0] == [];
    GroupItems(ranges, limit, 0);
  }

  /** The group of item `i`: how many groups were opened behind the first one, up to `i`. */
  ghost function GroupIndex(ranges: seq<ItemRange>, limit: GapLimit, i: nat): nat
    requires i < |ranges|
  {
    if i == 0 then 0 else GroupIndex(ranges, limit, i - 1) + if StartsGroup(ranges, limit, i) then 1 else 0
  }

  lemma {:induction false} GroupIndexIsInGroup(ranges: seq<ItemRange>, limit: GapLimit, i: nat)
    requires i < |ranges|
    ensures InGroup(ranges, limit, GroupIndex(ranges, limit, i), i)
  {
    if i == 0 {
      FirstInGroup(ranges, limit);
    } else {
      GroupIndexIsInGroup(ranges, limit, i - 1);
      NextInGroup(ranges, limit, GroupIndex(ranges, limit, i - 1), i - 1);
    }
  }

  /** A group encloses its items, and ends with its last one; the last item is in the last group. */
  lemma ItemWithinGroup(ranges: seq<ItemRange>, limit: GapLimit, i: nat)
    requires Acceptable(ranges) && i < |ranges|
    ensures var g := GroupIndex(ranges, limit, i);
            && g < |Groups(ranges, limit)|
            && Groups(ranges, limit)[g].start <= ranges[i].start && ranges[i].end <= Groups(ranges, limit)[g].end
            && (i + 1 == |ranges| || StartsGroup(ranges, limit, i + 1) ==> ranges[i].end == Groups(ranges, limit)[g].end)
            && (i + 1 == |ranges| ==> g + 1 == |Groups(ranges, limit)|)
  {
    hide Partition, FirstOf, GroupIndex, StartsGroup;
    var g := GroupIndex(ranges, limit, i);
    GroupIndexIsInGroup(ranges, limit, i);
    GroupItems(ranges, limit, g);
    NextInGroup(ranges, limit, g, i);
  }

  lemma StartsDiffer(ranges: seq<ItemRange>, i: nat, j: nat)
    requires Acceptable(ranges) && i < |ranges| && j < |ranges|
    ensures ranges[i].start == ranges[j].start <==> i == j
  {
  }

  /** A start lookup hits exactly for the items that are first in their group, and finds that group. */
  lemma StartLookup(ranges: seq<ItemRange>, limit: GapLimit, table: map<int, RangeGroup>, i: nat)
    requires Acceptable(ranges) && IsStartTable(table, Groups(ranges, limit)) && i < |ranges|
    ensures ranges[i].start in table <==> StartsGroup(ranges, limit, i)
    ensures StartsGroup(ranges, limit, i) ==>
              var g := GroupIndex(ranges, limit, i);
              && g < |Groups(ranges, limit)|
              && table[ranges[i].start] == Groups(ranges, limit)[g] && Groups(ranges, limit)[g].start == ranges[i].start
  {
    var groups, g := Groups(ranges, limit), GroupIndex(ranges, limit, i);
    GroupIndexIsInGroup(ranges, limit, i);
    InGroupStarts(ranges, limit, g, i);
    GroupItems(ranges, limit, g);
    if ranges[i].start in table {
      var h :| 0 <= h < |groups| && groups[h].start == ranges[i].start;
      GroupItems(ranges, limit, h);
      var j := FirstOf(ranges, limit, h);
      InGroupStarts(ranges, limit, h, j);
      StartsDiffer(ranges, i, j);
    }
  }
}
