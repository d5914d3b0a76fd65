/**
  Preparing a load plan: sort by storage offset, split by file, inject the ranges, look them up by URI
  (s3_file_system.py, `prepare_local_plan`; constructor.py, `DCPOptimizedConstructor`).
 */
module LoadPlans {
  import opened Results
  import opened RangeGroups
  import opened S3Uri

  datatype StorageInfo = StorageInfo(relativePath: string, offset: int, length: int)
  datatype ReadItem = ReadItem(storageIndex: int, destIndex: int)

  type StorageData = map<int, StorageInfo>

  predicate Known(storage: StorageData, items: seq<ReadItem>) {
    forall i :: 0 <= i < |items| ==> items[i].storageIndex in storage
  }

  function Offset(storage: StorageData, item: ReadItem): int {
    if item.storageIndex in storage then storage[item.storageIndex].offset else 0
  }

  // ---------- the stable sort ----------

  function Insert(storage: StorageData, x: ReadItem, s: seq<ReadItem>): seq<ReadItem> {
    if s == [] || Offset(storage, x) <= Offset(storage, s[0]) then [x] + s
    else [s[0]] + Insert(storage, x, s[1..])
  }

  /** `items.sort(key=offset)`. */
  function SortedByOffset(storage: StorageData, items: seq<ReadItem>): seq<ReadItem> {
    if items == [] then [] else Insert(storage, items[0], SortedByOffset(storage, items[1..]))
  }

  ghost predicate OffsetsAscend(storage: StorageData, items: seq<ReadItem>) {
    forall i, j :: 0 <= i < j < |items| ==> Offset(storage, items[i]) <= Offset(storage, items[j])
  }

  /** The items stored at one offset, in order. */
  function AtOffset(storage: StorageData, items: seq<ReadItem>, offset: int): seq<ReadItem> {
    if items == [] then []
    else (if Offset(storage, items[0]) == offset then [items[0]] else []) + AtOffset(storage, items[1..], offset)
  }

  lemma {:induction false} InsertPermutes(storage: StorageData, x: ReadItem, s: seq<ReadItem>)
    ensures multiset(Insert(storage, x, s)) == multiset{x} + multiset(s)
  {
    if s != [] && Offset(storage, s[0]) < Offset(storage, x) {
      InsertPermutes(storage, x, s[1..]);
      assert s == [s[0]] + s[1..];
    }
  }

  lemma {:induction false} InsertAscends(storage: StorageData, x: ReadItem, s: seq<ReadItem>)
    requires OffsetsAscend(storage, s)
    ensures OffsetsAscend(storage, Insert(storage, x, s))
  {
    if s != [] && Offset(storage, s[0]) < Offset(storage, x) {
      var rest := Insert(storage, x, s[1..]);
      InsertAscends(storage, x, s[1..]);
      InsertPermutes(storage, x, s[1..]);
      forall k | 0 <= k < |rest| ensures Offset(storage, s[0]) <= Offset(storage, rest[k]) {
        assert rest[k] in multiset(rest);
        assert rest[k] == x || rest[k] in s[1..];
      }
    }
  }

  /** `x` came before everything in `s`, and still does among the items at its offset. */
  lemma {:induction false} InsertIsStable(storage: StorageData, x: ReadItem, s: seq<ReadItem>, offset: int)
    requires OffsetsAscend(storage, s)
    ensures AtOffset(storage, Insert(storage, x, s), offset) ==
            (if Offset(storage, x) == offset then [x] else []) + AtOffset(storage, s, offset)
  {
    hide AtOffset, Offset;
    assert [] + AtOffset(storage, s, offset) == AtOffset(storage, s, offset);
    if s != [] && Offset(storage, s[0]) < Offset(storage, x) {
      var rest := Insert(storage, x, s[1..]);
      InsertIsStable(storage, x, s[1..], offset);
      AtOffsetCons(storage, s[0], rest, offset);
      AtOffsetCons(storage, s[0], s[1..], offset);
      assert s == [s[0]] + s[1..];
    } else {
      AtOffsetCons(storage, x, s, offset);
    }
  }

  lemma AtOffsetCons(storage: StorageData, x: ReadItem, s: seq<ReadItem>, offset: int)
    ensures Offset(storage, x) == offset ==> AtOffset(storage, [x] + s, offset) == [x] + AtOffset(storage, s, offset)
    ensures Offset(storage, x) != offset ==> AtOffset(storage, [x] + s, offset) == AtOffset(storage, s, offset)
  {
    assert ([x] + s)[1..] == s;
  }

  /** Sorted, a permutation, and stable: items at the same offset keep their order. */
  lemma {:induction false} SortIsStable(storage: StorageData, items: seq<ReadItem>, offset: int)
    ensures OffsetsAscend(storage, SortedByOffset(storage, items))
    ensures multiset(SortedByOffset(storage, items)) == multiset(items)
    ensures AtOffset(storage, SortedByOffset(storage, items), offset) == AtOffset(storage, items, offset)
  {
    if items != [] {
      var rest := SortedByOffset(storage, items[1..]);
      SortIsStable(storage, items[1..], offset);
      InsertPermutes(storage, items[0], rest);
      InsertAscends(storage, items[0], rest);
      InsertIsStable(storage, items[0], rest, offset);
      assert items == [items[0]] + items[1..];
    }
  }

  // ---------- the split by file ----------

  function UriOf(storage: StorageData, base: string, item: ReadItem): string
    requires item.storageIndex in storage
  {
    JoinPath(base, storage[item.storageIndex].relativePath)
  }

  function RangeOf(storage: StorageData, item: ReadItem): ItemRange
    requires item.storageIndex in storage
  {
    var info := storage[item.storageIndex];
    ItemRange(info.offset, info.offset + info.length)
  }

  /** The item's range, if it lives in the file `uri`. */
  function RangeIn(storage: StorageData, base: string, item: ReadItem, uri: string): (r: seq<ItemRange>)
    requires item.storageIndex in storage
  {
    if UriOf(storage, base, item) == uri then [RangeOf(storage, item)] else []
  }

  /** The ranges of the items that live in the file `uri`, in plan order. */
  function RangesOf(storage: StorageData, base: string, items: seq<ReadItem>, uri: string): seq<ItemRange>
    requires Known(storage, items)
  {
    if items == [] then [] else RangeIn(storage, base, items[0], uri) + RangesOf(storage, base, items[1..], uri)
  }

  lemma RangesOfCons(storage: StorageData, base: string, x: ReadItem, s: seq<ReadItem>, uri: string)
    requires Known(storage, s) && x.storageIndex in storage
    ensures Known(storage, [x] + s)
    ensures RangesOf(storage, base, [x] + s, uri) == RangeIn(storage, base, x, uri) + RangesOf(storage, base, s, uri)
  {
    assert ([x] + s)[1..] == s;
  }

  lemma {:induction false} RangesOfAppend(storage: StorageData, base: string, items: seq<ReadItem>, x: ReadItem,
                                          uri: string)
    requires Known(storage, items) && x.storageIndex in storage
    ensures RangesOf(storage, base, items + [x], uri) ==
            RangesOf(storage, base, items, uri) + RangeIn(storage, base, x, uri)
  {
    if items != [] {
      assert (items + [x])[1..] == items[1..] + [x];
      RangesOfAppend(storage, base, items[1..], x, uri);
    } else {
      assert [x][1..] == [];
    }
  }

  // ---------- what sorting does to the ranges of a file ----------

  /** How many of the ranges contain byte `p` of the file. */
  function Cover(ranges: seq<ItemRange>, p: int): nat {
    if ranges == [] then 0
    else (if ranges[0].start <= p < ranges[0].end then 1 else 0) + Cover(ranges[1..], p)
  }

  /** Every range is empty or has non-negative, increasing bounds. */
  predicate Proper(ranges: seq<ItemRange>) {
    forall r <- ranges :: r.start == r.end || 0 <= r.start < r.end
  }

  /** No byte of the file belongs to two ranges. */
  ghost predicate Disjoint(ranges: seq<ItemRange>) {
    forall p: int :: Cover(ranges, p) <= 1
  }

  ghost predicate StartsAscend(ranges: seq<ItemRange>) {
    forall i, j :: 0 <= i < j < |ranges| ==> ranges[i].start <= ranges[j].start
  }

  /** The same ranges up to order, and byte `p` belongs to as many of them. */
  ghost predicate SameRanges(before: seq<ItemRange>, after: seq<ItemRange>, p: int) {
    multiset(before) == multiset(after) && Cover(before, p) == Cover(after, p)
  }

  lemma SameRangesBehind(a: seq<ItemRange>, before: seq<ItemRange>, after: seq<ItemRange>, p: int)
    requires SameRanges(before, after, p)
    ensures SameRanges(a + before, a + after, p)
  {
    CoverConcat(a, before, p);
    CoverConcat(a, after, p);
  }

  lemma SameRangesSwap(a: seq<ItemRange>, b: seq<ItemRange>, c: seq<ItemRange>, after: seq<ItemRange>, p: int)
    requires SameRanges(a + c, after, p)
    ensures SameRanges(a + (b + c), b + after, p)
  {
    CoverConcat(a, b + c, p);
    CoverConcat(b, c, p);
    CoverConcat(a, c, p);
    CoverConcat(b, after, p);
  }

  lemma {:induction false} InsertKeepsRanges(storage: StorageData, base: string, x: ReadItem, s: seq<ReadItem>,
                                             uri: string, p: int)
    requires Known(storage, s) && x.storageIndex in storage
    ensures Known(storage, Insert(storage, x, s))
    ensures SameRanges(RangeIn(storage, base, x, uri) + RangesOf(storage, base, s, uri),
                       RangesOf(storage, base, Insert(storage, x, s), uri), p)
  {
    if s != [] && Offset(storage, s[0]) < Offset(storage, x) {
      var rest := Insert(storage, x, s[1..]);
      InsertKeepsRanges(storage, base, x, s[1..], uri, p);
      RangesOfCons(storage, base, s[0], rest, uri);
      SameRangesSwap(RangeIn(storage, base, x, uri), RangeIn(storage, base, s[0], uri),
                     RangesOf(storage, base, s[1..], uri), RangesOf(storage, base, rest, uri), p);
    } else {
      RangesOfCons(storage, base, x, s, uri);
    }
  }

  lemma {:induction false} CoverConcat(a: seq<ItemRange>, b: seq<ItemRange>, p: int)
    ensures Cover(a + b, p) == Cover(a, p) + Cover(b, p)
  {
    if a == [] {
      assert a + b == b;
    } else {
      assert (a + b)[1..] == a[1..] + b;
      CoverConcat(a[1..], b, p);
    }
  }

  /** Sorting permutes the ranges of each file, and leaves it to the same bytes. */
  lemma {:induction false} SortKeepsRanges(storage: StorageData, base: string, items: seq<ReadItem>, uri: string,
                                           p: int)
    requires Known(storage, items)
    ensures Known(storage, SortedByOffset(storage, items))
    ensures SameRanges(RangesOf(storage, base, items, uri), RangesOf(storage, base, SortedByOffset(storage, items), uri), p)
  {
    if items != [] {
      var rest := SortedByOffset(storage, items[1..]);
      SortKeepsRanges(storage, base, items[1..], uri, p);
      InsertKeepsRanges(storage, base, items[0], rest, uri, p);
      SameRangesBehind(RangeIn(storage, base, items[0], uri), RangesOf(storage, base, items[1..], uri),
                       RangesOf(storage, base, rest, uri), p);
    }
  }

  /** A sorted plan gives every file its ranges by increasing start. */
  lemma {:induction false} RangesAscend(storage: StorageData, base: string, items: seq<ReadItem>, uri: string)
    requires Known(storage, items) && OffsetsAscend(storage, items)
    ensures StartsAscend(RangesOf(storage, base, items, uri))
    ensures items != [] ==> forall r <- RangesOf(storage, base, items, uri) :: Offset(storage, items[0]) <= r.start
  {
    if items != [] {
      RangesAscend(storage, base, items[1..], uri);
      if |items| > 1 {
        assert Offset(storage, items[0]) <= Offset(storage, items[1]);
      }
    }
  }

  lemma {:induction false} CoveredBySome(ranges: seq<ItemRange>, p: int)
    ensures Cover(ranges, p) > 0 <==> exists r <- ranges :: r.start <= p < r.end
  {
    if ranges != [] {
      CoveredBySome(ranges[1..], p);
      assert forall r :: r in ranges <==> r == ranges[0] || r in ranges[1..];
    }
  }

  lemma CoverFirst(ranges: seq<ItemRange>, p: int)
    requires ranges != []
    ensures Cover(ranges, p) == (if ranges[0].start <= p < ranges[0].end then 1 else 0) + Cover(ranges[1..], p)
  {
  }

  lemma AcceptableOrder(ranges: seq<ItemRange>, i: nat, j: nat)
    requires Acceptable(ranges) && i < j < |ranges|
    ensures ranges[i].end <= ranges[j].start
  {
  }

  lemma FirstEndsBefore(ranges: seq<ItemRange>, x: ItemRange)
    requires ranges != [] && Acceptable(NonEmpty(ranges))
    requires ranges[0].start != ranges[0].end && x in ranges[1..] && x.start != x.end
    ensures ranges[0].end <= x.start
  {
    hide Acceptable;
    var kept := NonEmpty(ranges[1..]);
    assert x in kept && NonEmpty(ranges) == [ranges[0]] + kept;
    hide NonEmpty;
    var i :| 0 <= i < |kept| && kept[i] == x;
    AcceptableOrder(NonEmpty(ranges), 0, i + 1);
  }

  lemma AcceptedMeansDisjoint(ranges: seq<ItemRange>)
    requires ranges != [] && Acceptable(NonEmpty(ranges)) && Disjoint(ranges[1..])
    ensures Disjoint(ranges)
  {
    var r, rest := ranges[0], ranges[1..];
    forall p: int ensures Cover(ranges, p) <= 1 {
      assert Cover(rest, p) <= 1;
      CoveredBySome(rest, p);
      if r.start <= p < r.end && Cover(rest, p) > 0 {
        var x :| x in rest && x.start <= p < x.end;
        FirstEndsBefore(ranges, x);
      }
    }
  }

  lemma ConsAcceptable(ranges: seq<ItemRange>)
    requires ranges != [] && Acceptable(NonEmpty(ranges[1..]))
    requires ranges[0].start == ranges[0].end
             || (0 <= ranges[0].start < ranges[0].end && forall x <- NonEmpty(ranges[1..]) :: ranges[0].end <= x.start)
    ensures Acceptable(NonEmpty(ranges))
  {
  }

  lemma DisjointMeansAccepted(ranges: seq<ItemRange>)
    requires ranges != [] && StartsAscend(ranges) && Proper(ranges) && Disjoint(ranges)
    requires Acceptable(NonEmpty(ranges[1..]))
    ensures Acceptable(NonEmpty(ranges))
  {
    var r, rest := ranges[0], ranges[1..];
    var kept := NonEmpty(rest);
    hide Cover, NonEmpty, Acceptable;
    assert r in ranges;
    if r.start != r.end {
      forall i | 0 <= i < |kept| ensures r.end <= kept[i].start {
        var x := kept[i];
        assert x in kept && x in rest;
        assert Cover(ranges, x.start) <= 1;
        CoveredBySome(rest, x.start);
        CoverFirst(ranges, x.start);
      }
    }
    ConsAcceptable(ranges);
  }

  /** For ranges by increasing start: the reader accepts them exactly when no byte is asked for twice. */
  lemma {:induction false} AcceptableIffDisjoint(ranges: seq<ItemRange>)
    requires StartsAscend(ranges)
    ensures Acceptable(NonEmpty(ranges)) <==> Proper(ranges) && Disjoint(ranges)
  {
    hide Acceptable, NonEmpty;
    if ranges == [] {
      EmptyIsAccepted();
    } else {
      AcceptableIffDisjoint(ranges[1..]);
      if Acceptable(NonEmpty(ranges)) {
        AcceptableTail(ranges);
        AcceptedMeansDisjoint(ranges);
      }
      if Proper(ranges) && Disjoint(ranges) {
        forall p: int ensures Cover(ranges[1..], p) <= 1 {
          assert Cover(ranges, p) <= 1;
        }
        DisjointMeansAccepted(ranges);
      }
    }
  }

  lemma EmptyIsAccepted()
    ensures Acceptable(NonEmpty([]))
  {
  }

  lemma AcceptableTail(ranges: seq<ItemRange>)
    requires ranges != [] && Acceptable(NonEmpty(ranges))
    ensures Acceptable(NonEmpty(ranges[1..]))
    ensures Proper(ranges)
  {
    forall r | r in ranges ensures r.start == r.end || 0 <= r.start < r.end {
      assert r.start != r.end ==> r in NonEmpty(ranges);
    }
    var all, tail := NonEmpty(ranges), NonEmpty(ranges[1..]);
    if all != tail {
      assert all[1..] == tail;
    }
  }

  /**
    The plan theorem.  After preparing a plan, the reader accepts the ranges of a file exactly when
    they are proper and no byte of the file is planned twice, in whatever order the plan came.
   */
  lemma PlannedRangesAccepted(storage: StorageData, base: string, items: seq<ReadItem>, uri: string)
    requires Known(storage, items)
    ensures Known(storage, SortedByOffset(storage, items))
    ensures Acceptable(NonEmpty(RangesOf(storage, base, SortedByOffset(storage, items), uri))) <==>
            Proper(RangesOf(storage, base, items, uri)) && Disjoint(RangesOf(storage, base, items, uri))
  {
    var sorted := SortedByOffset(storage, items);
    SortKeepsRanges(storage, base, items, uri, 0);
    SortIsStable(storage, items, 0);
    RangesAscend(storage, base, sorted, uri);
    var before, after := RangesOf(storage, base, items, uri), RangesOf(storage, base, sorted, uri);
    AcceptableIffDisjoint(after);
    forall p: int ensures Cover(before, p) == Cover(after, p) {
      SortKeepsRanges(storage, base, items, uri, p);
    }
    assert forall r :: r in before <==> r in multiset(before);
    assert forall r :: r in after <==> r in multiset(after);
  }

  /** Sorting neither adds nor drops a range of a file. */
  lemma SameMembers(storage: StorageData, base: string, items: seq<ReadItem>, uri: string)
    requires Known(storage, items)
    ensures Known(storage, SortedByOffset(storage, items))
    ensures forall r :: r in RangesOf(storage, base, SortedByOffset(storage, items), uri) <==>
                        r in RangesOf(storage, base, items, uri)
  {
    SortKeepsRanges(storage, base, items, uri, 0);
    var before, after := RangesOf(storage, base, items, uri), RangesOf(storage, base, SortedByOffset(storage, items), uri);
    assert forall r :: r in before <==> r in multiset(before);
    assert forall r :: r in after <==> r in multiset(after);
  }

  /** A planned file's ranges can be served exactly when, in addition, one of them has bytes. */
  lemma PlannedRangesServedIff(storage: StorageData, base: string, items: seq<ReadItem>, uri: string)
    requires Known(storage, items)
    ensures Known(storage, SortedByOffset(storage, items))
    ensures Servable(RangesOf(storage, base, SortedByOffset(storage, items), uri)) <==>
            && Proper(RangesOf(storage, base, items, uri)) && Disjoint(RangesOf(storage, base, items, uri))
            && exists r <- RangesOf(storage, base, items, uri) :: r.start != r.end
  {
    hide Acceptable, Proper, Disjoint, RangesOf;
    PlannedRangesAccepted(storage, base, items, uri);
    SameMembers(storage, base, items, uri);
    var kept := NonEmpty(RangesOf(storage, base, SortedByOffset(storage, items), uri));
    if kept != [] { assert kept[0] in kept; }
  }

  lemma JoinedFile()
    ensures JoinPath("s3://b", "f") == "s3://b/f"
  {
    var base, suffix := "s3://b", "f";
    assert base[|base| - 1] == 'b' && suffix[0] == 'f' && "/"[0] == '/';
    assert base + "/" + suffix == "s3://b/f";
  }

  /** A plan whose only item has no bytes: nothing is wrong with its range, but no reader is made for it. */
  lemma AllEmptyIsRejected()
    ensures var (storage, items) := (map[0 := StorageInfo("f", 5, 0)], [ReadItem(0, 0)]);
            && Known(storage, items) && SortedByOffset(storage, items) == items
            && RangesOf(storage, "s3://b", items, "s3://b/f") == [ItemRange(5, 5)]
            && Proper([ItemRange(5, 5)]) && Disjoint([ItemRange(5, 5)])
            && !Servable([ItemRange(5, 5)])
  {
    var storage, items := map[0 := StorageInfo("f", 5, 0)], [ReadItem(0, 0)];
    assert items[1..] == [] && [ItemRange(5, 5)][1..] == [];
    JoinedFile();
  }

  /** A plan in which two items share a byte: each could be read, but not by one reader. */
  lemma SharedByteIsRejected()
    ensures var storage := map[0 := StorageInfo("f", 0, 2), 1 := StorageInfo("f", 1, 2)];
            var items := [ReadItem(0, 0), ReadItem(1, 1)];
            && Known(storage, items) && SortedByOffset(storage, items) == items
            && RangesOf(storage, "s3://b", items, "s3://b/f") == [ItemRange(0, 2), ItemRange(1, 3)]
            && Proper([ItemRange(0, 2), ItemRange(1, 3)]) && !Disjoint([ItemRange(0, 2), ItemRange(1, 3)])
            && !Servable([ItemRange(0, 2), ItemRange(1, 3)])
  {
    var storage, items := map[0 := StorageInfo("f", 0, 2), 1 := StorageInfo("f", 1, 2)], [ReadItem(0, 0), ReadItem(1, 1)];
    var ranges := [ItemRange(0, 2), ItemRange(1, 3)];
    assert items[1..] == [ReadItem(1, 1)] && items[1..][1..] == [];
    assert ranges[1..] == [ItemRange(1, 3)] && ranges[1..][1..] == [];
    JoinedFile();
    assert Cover(ranges, 1) == 2;
    assert NonEmpty(ranges) == ranges && ranges[0].end > ranges[1].start;
  }

  // ---------- the plan and the constructor ----------

  class LoadPlan {
    var items: seq<ReadItem>

    constructor (items: seq<ReadItem>)
      ensures this.items == items
    {
      this.items := items;
    }

    /** `plan.items.sort(key=...)`: a missing key raises before anything moves. */
    method Sort(storage: StorageData) returns (r: Result<()>)
      modifies this
      ensures r.Ok? <==> Known(storage, old(items))
      ensures items == if r.Ok? then SortedByOffset(storage, old(items)) else old(items)
    {
      if !Known(storage, items) {
        return Err(KeyError);
      }
      items := SortedByOffset(storage, items);
      return Ok(());
    }
  }

  /** Every file of the plan with its ranges, in plan order, and no other file. */
  ghost predicate SplitByFile(table: map<string, seq<ItemRange>>, storage: StorageData, base: string,
                              items: seq<ReadItem>) {
    && Known(storage, items)
    && (forall uri :: uri in table ==> table[uri] == RangesOf(storage, base, items, uri) && table[uri] != [])
    && (forall uri :: uri !in table ==> RangesOf(storage, base, items, uri) == [])
  }

  /** What `__call__` decides for a file. */
  datatype ReaderChoice = UseSequential | UseDcp(itemRanges: seq<ItemRange>, maxGapSize: GapLimit)

  const METADATA_SUFFIX := ".metadata"

  predicate EndsWith(s: string, suffix: string) {
    |s| >= |suffix| && s[|s| - |suffix|..] == suffix
  }

  /** The total width of the range groups of one file: the bytes its streams deliver. */
  ghost function FileTotal(ranges: seq<ItemRange>, limit: GapLimit): int {
    TotalWidth(Groups(NonEmpty(ranges), limit))
  }

  /** The same for several files together, in whatever order they are taken. */
  ghost function PlannedTotal(table: map<string, seq<ItemRange>>, limit: GapLimit, uris: set<string>): int
    requires uris <= table.Keys
    decreases |uris|
  {
    if uris == {} then 0
    else
      var uri :| uri in uris;
      FileTotal(table[uri], limit) + PlannedTotal(table, limit, uris - {uri})
  }

  /** Any file can be taken first. */
  lemma {:induction false} PlannedTotalSplit(table: map<string, seq<ItemRange>>, limit: GapLimit, uris: set<string>,
                                             uri: string)
    requires uri in uris && uris <= table.Keys
    ensures PlannedTotal(table, limit, uris) == FileTotal(table[uri], limit) + PlannedTotal(table, limit, uris - {uri})
    decreases |uris|
  {
    hide FileTotal;
    var first :| first in uris
                 && PlannedTotal(table, limit, uris) ==
                    FileTotal(table[first], limit) + PlannedTotal(table, limit, uris - {first});
    if first != uri {
      PlannedTotalSplit(table, limit, uris - {first}, uri);
      PlannedTotalSplit(table, limit, uris - {uri}, first);
      assert uris - {first} - {uri} == uris - {uri} - {first};
    }
  }

  /**
    While every file's total is at least nought, some of the files never exceed all of them, and equal
    them exactly when the others have nothing to deliver.
   */
  lemma {:induction false} PlannedTotalGrows(table: map<string, seq<ItemRange>>, limit: GapLimit, some: set<string>,
                                             all: set<string>)
    requires some <= all <= table.Keys
    requires forall uri <- all :: FileTotal(table[uri], limit) >= 0
    ensures PlannedTotal(table, limit, some) <= PlannedTotal(table, limit, all)
    ensures PlannedTotal(table, limit, some) == PlannedTotal(table, limit, all) <==>
            forall uri <- all - some :: FileTotal(table[uri], limit) == 0
    decreases |all|
  {
    hide FileTotal;
    if some != all {
      assert some + (all - some) == all;
      var uri :| uri in all - some;
      PlannedTotalSplit(table, limit, all, uri);
      PlannedTotalGrows(table, limit, some, all - {uri});
    }
  }

  /** A progress bar: what was announced, and what was reported since. */
  datatype ProgressBar = ProgressBar(total: int, done: int)

  class DCPOptimizedConstructor {
    var itemRangesByFile: map<string, seq<ItemRange>>
    const maxGapSize: GapLimit
    const enableProgress: bool
    var progress: Option<ProgressBar>

    constructor (maxGapSize: GapLimit, enableProgress: bool)
      ensures this.maxGapSize == maxGapSize && this.enableProgress == enableProgress
      ensures itemRangesByFile == map[] && progress == None
    {
      this.maxGapSize, this.enableProgress := maxGapSize, enableProgress;
      itemRangesByFile, progress := map[], None;
    }

    /** `__init__`: rejects a negative gap limit. */
    static method Create(maxGapSize: GapLimit, enableProgress: bool) returns (r: Result<DCPOptimizedConstructor>)
      ensures r.Ok? <==> maxGapSize.Unlimited? || maxGapSize.n >= 0
      ensures r.Ok? ==> && fresh(r.value) && r.value.maxGapSize == maxGapSize && r.value.enableProgress == enableProgress
                        && r.value.itemRangesByFile == map[] && r.value.progress == None
    {
      if !NonNegative(maxGapSize) {
        return Err(ValueError);
      }
      var constr := new DCPOptimizedConstructor(maxGapSize, enableProgress);
      return Ok(constr);
    }

    /** The bar for the injected ranges: their common total, if progress is wanted and there is any. */
    ghost function Announced(): Option<ProgressBar>
      reads this`itemRangesByFile
    {
      var total := PlannedTotal(itemRangesByFile, maxGapSize, itemRangesByFile.Keys);
      if enableProgress && total > 0 then Some(ProgressBar(total, 0)) else None
    }

    method StartProgress()
      modifies this`progress
      ensures progress == if Announced().Some? then Announced() else old(progress)
    {
      if !enableProgress {
        return;
      }
      var total, rest := 0, itemRangesByFile.Keys;
      while rest != {}
        invariant rest <= itemRangesByFile.Keys && progress == old(progress)
        invariant total + PlannedTotal(itemRangesByFile, maxGapSize, rest) ==
                  PlannedTotal(itemRangesByFile, maxGapSize, itemRangesByFile.Keys)
        decreases |rest|
      {
        var uri :| uri in rest;
        var fileTotal := CoalescedStreamTotalBytes(itemRangesByFile[uri], maxGapSize);
        assert fileTotal == FileTotal(itemRangesByFile[uri], maxGapSize);
        PlannedTotalSplit(itemRangesByFile, maxGapSize, rest, uri);
        total, rest := total + fileTotal, rest - {uri};
      }
      if total > 0 {
        progress := Some(ProgressBar(total, 0));
      }
    }

    /** The callback a reader reports fetched bytes to. */
    method UpdateProgress(byteCount: int)
      modifies this`progress
      ensures progress == if old(progress).Some? && byteCount > 0
                          then Some(old(progress).value.(done := old(progress).value.done + byteCount)) else old(progress)
    {
      if progress.Some? && byteCount > 0 {
        progress := Some(progress.value.(done := progress.value.done + byteCount));
      }
    }

    method CloseProgress()
      modifies this`progress
      ensures progress == None
    {
      if progress.Some? {
        progress := None;
      }
    }

    /** Replaces the injected ranges by those of the plan, and starts a new progress bar for them. */
    method SetItemRangesByFile(planItems: seq<ReadItem>, storage: StorageData, base: string) returns (r: Result<()>)
      modifies this
      ensures r.Ok? <==> planItems == [] || (storage != map[] && Known(storage, planItems))
      ensures r.Ok? ==> SplitByFile(itemRangesByFile, storage, base, planItems)
      ensures planItems != [] && storage == map[] ==> itemRangesByFile == old(itemRangesByFile)
      ensures progress == if r.Ok? then Announced() else None
    {
      hide SplitByFile;
      CloseProgress();
      if planItems == [] {
        itemRangesByFile := map[];
        EmptySplit(storage, base);
        return Ok(());
      }
      if storage == map[] {
        return Err(ValueError);
      }
      r := SplitPlan(planItems, storage, base);
      if r.Ok? {
        StartProgress();
      }
    }

    lemma EmptySplit(storage: StorageData, base: string)
      ensures SplitByFile(map[], storage, base, [])
      ensures PlannedTotal(map[], maxGapSize, {}) == 0
    {
    }

    /** The loop that fills the table. */
    method SplitPlan(planItems: seq<ReadItem>, storage: StorageData, base: string) returns (r: Result<()>)
      modifies this`itemRangesByFile
      ensures r.Ok? <==> Known(storage, planItems)
      ensures r.Ok? ==> SplitByFile(itemRangesByFile, storage, base, planItems)
    {
      itemRangesByFile := map[];
      for i := 0 to |planItems|
        invariant Known(storage, planItems[..i])
        invariant SplitByFile(itemRangesByFile, storage, base, planItems[..i])
      {
        var item := planItems[i];
        if item.storageIndex !in storage {
          return Err(KeyError);
        }
        assert planItems[..i + 1] == planItems[..i] + [item];
        forall uri ensures RangesOf(storage, base, planItems[..i + 1], uri) ==
                           RangesOf(storage, base, planItems[..i], uri) + RangeIn(storage, base, item, uri)
        {
          RangesOfAppend(storage, base, planItems[..i], item, uri);
        }
        var uri := UriOf(storage, base, item);
        var before := if uri in itemRangesByFile then itemRangesByFile[uri] else [];
        itemRangesByFile := itemRangesByFile[uri := before + [RangeOf(storage, item)]];
      }
      assert planItems[..|planItems|] == planItems;
      return Ok(());
    }

    /** Chooses the reader for an object by its key and the injected ranges. */
    function Call(bucket: string, key: string): Result<ReaderChoice>
      reads this
    {
      if EndsWith(key, METADATA_SUFFIX) then Ok(UseSequential)
      else if Rebuild(bucket, key) in itemRangesByFile then
        Ok(UseDcp(itemRangesByFile[Rebuild(bucket, key)], maxGapSize))
      else Err(ValueError)
    }
  }

  /** The last nine characters say ".metadata". */
  predicate IsMetadataKey(key: string) {
    |key| >= 9 && key[|key| - 9..] == ['.', 'm', 'e', 't', 'a', 'd', 'a', 't', 'a']
  }

  /**
    Which keys are metadata, whatever was planned: those that end in ".metadata", in a directory or not, and
    no others.
   */
  lemma MetadataIsSequential(constr: DCPOptimizedConstructor, bucket: string, key: string, directory: string)
    ensures constr.Call(bucket, directory + ".metadata") == Ok(UseSequential)
    ensures constr.Call(bucket, key) == Ok(UseSequential) <==> IsMetadataKey(key)
    ensures IsMetadataKey(key) <==> exists p: string :: key == p + ".metadata"
  {
    var suffix := ".metadata";
    assert suffix == ['.', 'm', 'e', 't', 'a', 'd', 'a', 't', 'a'];
    assert (directory + suffix)[|directory + suffix| - 9..] == suffix;
    if IsMetadataKey(key) {
      assert key == key[..|key| - 9] + ".metadata";
    }
    forall p: string | key == p + ".metadata" ensures IsMetadataKey(key) {
      assert (p + suffix)[|p + suffix| - 9..] == suffix;
    }
  }

  /** In plain words: every item is stored, none in front of the one before it. */
  ghost predicate AscendingOffsets(storage: StorageData, items: seq<ReadItem>) {
    && (forall i :: 0 <= i < |items| ==> items[i].storageIndex in storage)
    && forall i, j :: 0 <= i < j < |items| ==>
                        storage[items[i].storageIndex].offset <= storage[items[j].storageIndex].offset
  }

  /** `prepare_local_plan` with a DCP reader constructor. */
  method PrepareLocalPlan(plan: LoadPlan, storage: StorageData, base: string, constr: DCPOptimizedConstructor)
    returns (r: Result<()>)
    modifies plan, constr
    ensures r.Ok? <==> Known(storage, old(plan.items))
    ensures r.Ok? ==> plan.items == SortedByOffset(storage, old(plan.items))
    ensures r.Ok? ==> SplitByFile(constr.itemRangesByFile, storage, base, plan.items)
    ensures r.Ok? ==> constr.progress == constr.Announced()
    ensures r.Ok? ==> multiset(plan.items) == multiset(old(plan.items)) && AscendingOffsets(storage, plan.items)
  {
    r := plan.Sort(storage);
    if r.Err? {
      return;
    }
    SortIsStable(storage, old(plan.items), 0);
    assert old(plan.items) != [] ==> old(plan.items)[0].storageIndex in storage;
    SortKeepsRanges(storage, base, old(plan.items), "", 0);
    assert |multiset(plan.items)| == |plan.items| && |multiset(old(plan.items))| == |old(plan.items)|;
    r := constr.SetItemRangesByFile(plan.items, storage, base);
  }

  /** A planned file, opened by its path, finds exactly its own ranges. */
  lemma PlannedFileFindsItsRanges(constr: DCPOptimizedConstructor, storage: StorageData, base: string,
                                  items: seq<ReadItem>, item: ReadItem)
    requires SplitByFile(constr.itemRangesByFile, storage, base, items) && item in items
    requires ParseS3Uri(base).Ok? && !("/" <= storage[item.storageIndex].relativePath)
    ensures var path := UriOf(storage, base, item);
            && ParseS3Uri(path).Ok?
            && var (bucket, key) := ParseS3Uri(path).value;
            constr.Call(bucket, key) ==
            Ok(if IsMetadataKey(key) then UseSequential
               else UseDcp(RangesOf(storage, base, items, path), constr.maxGapSize))
  {
    MetadataIsSequential(constr, "", ParseS3Uri(UriOf(storage, base, item)).value.1, "");
    JoinedPathRoundTrips(base, storage[item.storageIndex].relativePath);
    RangeOfItemListed(storage, base, items, item);
  }

  /** Every range of a file is the range of an item that lives there. */
  lemma {:induction false} RangeHasItem(storage: StorageData, base: string, items: seq<ReadItem>, uri: string, r: ItemRange)
    returns (item: ReadItem)
    requires Known(storage, items) && r in RangesOf(storage, base, items, uri)
    ensures item in items && item.storageIndex in storage
    ensures var info := storage[item.storageIndex];
            JoinPath(base, info.relativePath) == uri && r == ItemRange(info.offset, info.offset + info.length)
  {
    item := items[0];
    if !(r in RangeIn(storage, base, item, uri)) {
      item := RangeHasItem(storage, base, items[1..], uri, r);
    }
  }

  /** A file with a range in the table has an item in the plan. */
  lemma {:induction false} ListedFileHasItem(storage: StorageData, base: string, items: seq<ReadItem>, uri: string)
    returns (item: ReadItem)
    requires Known(storage, items) && RangesOf(storage, base, items, uri) != []
    ensures item in items && item.storageIndex in storage && UriOf(storage, base, item) == uri
  {
    item := items[0];
    if UriOf(storage, base, item) != uri {
      item := ListedFileHasItem(storage, base, items[1..], uri);
    }
  }

  lemma {:induction false} RangeOfItemListed(storage: StorageData, base: string, items: seq<ReadItem>, item: ReadItem)
    requires Known(storage, items) && item in items
    ensures item.storageIndex in storage
    ensures var info := storage[item.storageIndex];
            ItemRange(info.offset, info.offset + info.length) in RangesOf(storage, base, items, UriOf(storage, base, item))
  {
    if items[0] != item {
      RangeOfItemListed(storage, base, items[1..], item);
    }
  }
}
