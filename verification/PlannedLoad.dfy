/**
  From a prepared plan to the bytes: reading each file's items in plan order never raises, opens one
  stream per range group, and fetches exactly the announced total.
 */
module PlannedLoads {
  import opened Results
  import opened ByteStreams
  import opened FileSpec
  import opened RangeGroups
  import opened DcpSpec
  import opened DcpReaders
  import opened DcpRuns
  import opened S3Uri
  import opened LoadPlans

  // ---------- opening a planned file ----------

  /** `__call__` makes a DCP reader, and not a sequential one for metadata. */
  predicate ByDcp(uri: string) {
    ParseS3Uri(uri).Ok? && !IsMetadataKey(ParseS3Uri(uri).value.1)
  }

  function KeyOf(uri: string): string {
    if ParseS3Uri(uri).Ok? then ParseS3Uri(uri).value.1 else ""
  }

  /** `create_stream(path, "rb")`: parses the path, asks the constructor, and makes the reader it names. */
  method Open(constr: DCPOptimizedConstructor, store: ObjectStore, path: string)
    returns (r: Result<Option<DCPOptimizedS3Reader>>)
    requires store.Valid()
    ensures r.Ok? && r.value.None? <==> ParseS3Uri(path).Ok? && IsMetadataKey(KeyOf(path))
    ensures r.Ok? && r.value.Some? <==>
            && ParseS3Uri(path).Ok? && !IsMetadataKey(KeyOf(path)) && KeyOf(path) != "" && NonNegative(constr.maxGapSize)
            && var uri := Rebuild(ParseS3Uri(path).value.0, KeyOf(path));
            uri in constr.itemRangesByFile && Servable(constr.itemRangesByFile[uri])
    ensures r.Ok? && r.value.Some? ==>
              && fresh(r.value.value) && r.value.value.Valid() && r.value.value.State() == FRESH
              && r.value.value.maxGapSize == constr.maxGapSize
              && r.value.value.itemRanges ==
                 NonEmpty(constr.itemRangesByFile[Rebuild(ParseS3Uri(path).value.0, KeyOf(path))])
  {
    hide Servable, NonEmpty, DCPOptimizedS3Reader.Valid;
    if ParseS3Uri(path).Err? {
      return Err(ParseS3Uri(path).error);
    }
    ParsedShape(path);
    var (bucket, key) := ParseS3Uri(path).value;
    MetadataIsSequential(constr, bucket, key, "");
    var choice := constr.Call(bucket, key);
    if choice.Err? {
      return Err(choice.error);
    }
    match choice.value {
      case UseSequential =>
        return Ok(None);
      case UseDcp(ranges, maxGapSize) =>
        var reader := DCPOptimizedS3Reader.Create(store, bucket, key, ranges, maxGapSize);
        return if reader.Ok? then Ok(Some(reader.value)) else Err(reader.error);
    }
  }

  /** What decides over a planned file, as the plan came. */
  ghost predicate Openable(storage: StorageData, base: string, items: seq<ReadItem>, path: string)
    requires Known(storage, items)
  {
    var ranges := RangesOf(storage, base, items, path);
    && KeyOf(path) != ""
    && Proper(ranges) && Disjoint(ranges) && exists r <- ranges :: r.start != r.end
  }

  /**
    The exact condition for a planned file, after preparation: a DCP reader over its ranges exactly if its
    key is not a metadata file's and it is openable; an error exactly if it is not openable; and a sequential
    reader for metadata.
   */
  method OpenPlanned(constr: DCPOptimizedConstructor, store: ObjectStore, storage: StorageData, base: string,
                     items: seq<ReadItem>, item: ReadItem) returns (r: Result<Option<DCPOptimizedS3Reader>>)
    requires store.Valid() && NonNegative(constr.maxGapSize)
    requires Known(storage, items) && item in items
    requires SplitByFile(constr.itemRangesByFile, storage, base, SortedByOffset(storage, items))
    requires ParseS3Uri(base).Ok? && !("/" <= storage[item.storageIndex].relativePath)
    ensures var path := UriOf(storage, base, item);
            && ParseS3Uri(path).Ok?
            && (r.Ok? && r.value.Some? <==> !IsMetadataKey(KeyOf(path)) && Openable(storage, base, items, path))
            && (r.Ok? && r.value.None? <==> IsMetadataKey(KeyOf(path)))
            && (r.Ok? && r.value.Some? ==>
                  && fresh(r.value.value) && r.value.value.Valid() && r.value.value.State() == FRESH
                  && r.value.value.maxGapSize == constr.maxGapSize
                  && r.value.value.itemRanges == NonEmpty(RangesOf(storage, base, SortedByOffset(storage, items), path)))
  {
    hide Servable, NonEmpty, Proper, Disjoint, RangesOf, SplitByFile, ParseS3Uri, Rebuild, DCPOptimizedS3Reader.Valid;
    var path := UriOf(storage, base, item);
    SortIsStable(storage, items, 0);
    assert item in multiset(items) && item in SortedByOffset(storage, items);
    JoinedPathRoundTrips(base, storage[item.storageIndex].relativePath);
    PlannedRangesServedIff(storage, base, items, path);
    ListedInTable(constr.itemRangesByFile, storage, base, SortedByOffset(storage, items), item);
    r := Open(constr, store, path);
  }

  lemma ListedInTable(table: map<string, seq<ItemRange>>, storage: StorageData, base: string, items: seq<ReadItem>,
                      item: ReadItem)
    requires SplitByFile(table, storage, base, items) && item in items
    ensures item.storageIndex in storage
    ensures var path := UriOf(storage, base, item);
            path in table && table[path] == RangesOf(storage, base, items, path)
  {
    RangeOfItemListed(storage, base, items, item);
  }

  /**
    A planned file that is rejected only for its name: its path is a bucket's, the key is empty.  Its ranges
    are as they should be.
   */
  method EmptyKeyIsRejected(store: ObjectStore) returns (r: Result<Option<DCPOptimizedS3Reader>>)
    requires store.Valid()
    ensures r.Err? && !Openable(map[0 := StorageInfo("", 0, 2)], "s3://b", [ReadItem(0, 0)], "s3://b/")
    ensures RangesOf(map[0 := StorageInfo("", 0, 2)], "s3://b", [ReadItem(0, 0)], "s3://b/") == [ItemRange(0, 2)]
    ensures Servable([ItemRange(0, 2)])
  {
    var storage, item, base := map[0 := StorageInfo("", 0, 2)], ReadItem(0, 0), "s3://b";
    EmptyKey();
    assert [item][1..] == [] && [ItemRange(0, 2)][1..] == [];
    assert NonEmpty([ItemRange(0, 2)]) == [ItemRange(0, 2)];
    var constr := new DCPOptimizedConstructor(AtMost(0), false);
    var plan := new LoadPlan([item]);
    var prepared := PrepareLocalPlan(plan, storage, base, constr);
    assert SortedByOffset(storage, [item]) == [item];
    r := OpenPlanned(constr, store, storage, base, [item], item);
  }

  lemma EmptyKey()
    ensures ParseS3Uri("s3://b").Ok? && !("/" <= "") && JoinPath("s3://b", "") == "s3://b/"
    ensures ParseS3Uri("s3://b/") == Ok(("b", "")) && ByDcp("s3://b/")
  {
    BareBucketGainsSlash();
    var base := "s3://b";
    assert base[|base| - 1] == 'b' && "/"[0] == '/';
    assert base + "/" + "" == "s3://b/" && Rebuild("b", "") == "s3://b/";
    ParseOfRebuild("b", "");
  }

  // ---------- items without bytes ----------

  /**
    The item in which a `readinto` of an empty buffer lands between two reads, without leaving `next`, the
    item still to be read, behind: the current item, or `next` once the current one is passed.
   */
  function EmptyReadLands(current: Option<ItemRange>, next: Option<ItemRange>, pos: nat): Option<ItemRange> {
    if current.Some? && Contains(current.value, pos, pos) then current
    else if next.None? || current == next then None
    else if (current.None? || current.value.end <= pos) && Contains(next.value, pos, pos) then next
    else None
  }

  /** Calls that read nothing: all that is done for an item without bytes. */
  predicate IdleOp(current: Option<ItemRange>, next: Option<ItemRange>, pos: nat, op: DcpOp) {
    match op
    case Io(Tell) => true
    case Io(Seek(offset, whence)) => (whence.Set? && offset >= 0) || (whence.Cur? && pos + offset >= 0)
    case Io(Read(size)) => size == Some(0)
    case Io(ReadInto(dest)) => dest == [] && EmptyReadLands(current, next, pos).Some?
    case Close => false
  }

  function AfterIdle(current: Option<ItemRange>, next: Option<ItemRange>, pos: nat, op: DcpOp): Option<ItemRange> {
    match op
    case Io(ReadInto(_)) => EmptyReadLands(current, next, pos)
    case _ => current
  }

  predicate IsIdle(current: Option<ItemRange>, next: Option<ItemRange>, pos: nat, ops: seq<DcpOp>)
    decreases |ops|
  {
    ops == []
    || (IdleOp(current, next, pos, ops[0])
        && IsIdle(AfterIdle(current, next, pos, ops[0]), next, Moved(pos, ops[0]), ops[1..]))
  }

  function AfterIdles(current: Option<ItemRange>, next: Option<ItemRange>, pos: nat, ops: seq<DcpOp>): Option<ItemRange>
    decreases |ops|
  {
    if ops == [] then current
    else AfterIdles(AfterIdle(current, next, pos, ops[0]), next, Moved(pos, ops[0]), ops[1..])
  }

  function FirstOfSome(items: seq<ItemRange>): Option<ItemRange> {
    if items == [] then None else Some(items[0])
  }

  /** The items from `i` on are still to be read; `current` is the one that is loaded. */
  ghost predicate Between(content: Bytes, items: seq<ItemRange>, st: DcpState, i: nat, current: Option<ItemRange>) {
    && Sound(content, items, st) && i <= |items| && !st.closed
    && (i < |items| ==> st.index == i || (st.loaded && st.index + 1 == i))
    && (i == |items| ==> st.loaded && st.index + 1 == |items|)
    && current == (if st.loaded then Some(items[st.index]) else None)
  }

  /** Where an empty `readinto` lands, in terms of the item the reader is at. */
  lemma LandsHere(content: Bytes, items: seq<ItemRange>, st: DcpState, i: nat, current: Option<ItemRange>)
    requires Acceptable(items) && Between(content, items, st, i, current)
    ensures EmptyReadLands(current, FirstOfSome(items[i..]), st.position) ==
            if Contains(items[st.index], st.position, st.position) then Some(items[st.index])
            else if && st.index < i < |items| && items[st.index].end < st.position
                    && Contains(items[i], st.position, st.position) then
              Some(items[i])
            else None
  {
    var item := items[st.index];
    assert 0 <= item.start < item.end;
    if i < |items| {
      assert items[i..][0] == items[i];
      if st.index < i { assert item.end <= items[i].start < items[i].end; }
    }
  }

  /** An empty `readinto` is accepted, and leaves nothing behind, exactly when it lands. */
  lemma EmptyReadLandsIff(content: Bytes, items: seq<ItemRange>, limit: GapLimit, st: DcpState, i: nat,
                          current: Option<ItemRange>)
    requires Acceptable(items) && Between(content, items, st, i, current) && forall item <- items :: item.end <= |content|
    ensures var step := DcpStep(content, items, limit, st, Io(ReaderOp.ReadInto([])));
            && (step.Some? && step.value.0.index <= i <==> EmptyReadLands(current, FirstOfSome(items[i..]), st.position).Some?)
            && (step.Some? && step.value.0.index <= i ==>
                  && step.value.0.position == st.position
                  && Between(content, items, step.value.0, i, EmptyReadLands(current, FirstOfSome(items[i..]), st.position)))
  {
    assert items[st.index] in items;
    if i < |items| { assert items[i] in items; }
    LandsHere(content, items, st, i, current);
    EmptyReadIntoIff(content, items, limit, st);
    hide DcpStep, Acceptable, EmptyReadLands, FirstOfSome;
  }

  lemma IdleStep(content: Bytes, items: seq<ItemRange>, limit: GapLimit, st: DcpState, i: nat,
                 current: Option<ItemRange>, op: DcpOp)
    requires Acceptable(items) && Between(content, items, st, i, current) && forall item <- items :: item.end <= |content|
    requires IdleOp(current, FirstOfSome(items[i..]), st.position, op)
    ensures var step := DcpStep(content, items, limit, st, op);
            && step.Some? && step.value.0.position == Moved(st.position, op)
            && Between(content, items, step.value.0, i, AfterIdle(current, FirstOfSome(items[i..]), st.position, op))
  {
    hide Acceptable, EmptyReadLands;
    if op.Io? && op.op.ReadInto? {
      EmptyReadLandsIff(content, items, limit, st, i, current);
    }
  }

  /** Idle calls are accepted and leave the items still to be read before the reader. */
  lemma {:induction false} IdleAccepted(content: Bytes, items: seq<ItemRange>, limit: GapLimit, st: DcpState,
                                        i: nat, current: Option<ItemRange>, ops: seq<DcpOp>)
    requires Acceptable(items) && Between(content, items, st, i, current) && forall item <- items :: item.end <= |content|
    requires IsIdle(current, FirstOfSome(items[i..]), st.position, ops)
    ensures var run := DcpRun(content, items, limit, st, ops);
            && run.Some? && run.value.0.position == MovedBy(st.position, ops)
            && Between(content, items, run.value.0, i, AfterIdles(current, FirstOfSome(items[i..]), st.position, ops))
    decreases |ops|
  {
    hide DcpStep, EmptyReadLands, IdleOp, AfterIdle, Acceptable;
    if ops != [] {
      IdleStep(content, items, limit, st, i, current, ops[0]);
      var next := DcpStep(content, items, limit, st, ops[0]).value.0;
      IdleAccepted(content, items, limit, next, i, AfterIdle(current, FirstOfSome(items[i..]), st.position, ops[0]), ops[1..]);
    }
  }

  // ---------- a file in plan order ----------

  /** One block of calls per range, in order; a non-empty range is really read, an empty one is not. */
  predicate ReadsInOrder(ranges: seq<ItemRange>, current: Option<ItemRange>, pos: nat, visits: seq<seq<DcpOp>>)
    decreases |ranges|
  {
    |visits| == |ranges|
    && (ranges == []
        || (if ranges[0].start == ranges[0].end then
              var next := FirstOfSome(NonEmpty(ranges));
              && IsIdle(current, next, pos, visits[0])
              && ReadsInOrder(ranges[1..], AfterIdles(current, next, pos, visits[0]), MovedBy(pos, visits[0]), visits[1..])
            else
              && IsVisit(ranges[0], pos, visits[0], false)
              && ReadsInOrder(ranges[1..], Some(ranges[0]), MovedBy(pos, visits[0]), visits[1..])))
  }

  /** With the items from `i` on still to come, reading them in order is accepted. */
  lemma {:induction false} InOrderAccepted(content: Bytes, items: seq<ItemRange>, limit: GapLimit, st: DcpState,
                                           current: Option<ItemRange>,
                                           ranges: seq<ItemRange>, i: nat, visits: seq<seq<DcpOp>>)
    requires Acceptable(items) && Between(content, items, st, i, current) && NonEmpty(ranges) == items[i..]
    requires forall item <- items :: item.end <= |content|
    requires ReadsInOrder(ranges, current, st.position, visits)
    ensures var run := DcpRun(content, items, limit, st, Flatten(visits));
            run.Some? && run.value.0.loaded && run.value.0.index + 1 == |items|
    decreases |ranges|
  {
    hide Acceptable, Sound, IsIdle, IsVisit, AfterIdles;
    if ranges != [] {
      RunAppend(content, items, limit, st, visits[0], Flatten(visits[1..]));
      if ranges[0].start == ranges[0].end {
        IdleAccepted(content, items, limit, st, i, current, visits[0]);
        InOrderAccepted(content, items, limit, DcpRun(content, items, limit, st, visits[0]).value.0,
                        AfterIdles(current, FirstOfSome(items[i..]), st.position, visits[0]), ranges[1..], i, visits[1..]);
      } else {
        assert NonEmpty(ranges)[0] == ranges[0] == items[i] && items[i] in items;
        VisitAccepted(content, items, limit, st, visits[0], i, false);
        assert NonEmpty(ranges[1..]) == items[i + 1..] by {
          assert NonEmpty(ranges)[1..] == NonEmpty(ranges[1..]);
        }
        InOrderAccepted(content, items, limit, DcpRun(content, items, limit, st, visits[0]).value.0,
                        Some(ranges[0]), ranges[1..], i + 1, visits[1..]);
      }
    }
  }

  lemma FreshRunAccepted(content: Bytes, ranges: seq<ItemRange>, limit: GapLimit, visits: seq<seq<DcpOp>>)
    requires Servable(ranges) && forall r <- NonEmpty(ranges) :: r.end <= |content|
    requires ReadsInOrder(ranges, None, 0, visits)
    ensures var run := DcpRun(content, NonEmpty(ranges), limit, FRESH, Flatten(visits));
            run.Some? && run.value.0.loaded && run.value.0.index + 1 == |NonEmpty(ranges)|
  {
    InOrderAccepted(content, NonEmpty(ranges), limit, FRESH, None, ranges, 0, visits);
  }

  lemma {:induction false} InOrderNeverCloses(ranges: seq<ItemRange>, current: Option<ItemRange>, pos: nat,
                                              visits: seq<seq<DcpOp>>)
    requires ReadsInOrder(ranges, current, pos, visits)
    ensures NeverCloses(Flatten(visits))
    decreases |ranges|
  {
    hide IsIdle, IsVisit, AfterIdles;
    if ranges != [] {
      if ranges[0].start == ranges[0].end {
        var next := FirstOfSome(NonEmpty(ranges));
        IdlesNeverClose(current, next, pos, visits[0]);
        InOrderNeverCloses(ranges[1..], AfterIdles(current, next, pos, visits[0]), MovedBy(pos, visits[0]), visits[1..]);
      } else {
        VisitNeverCloses(ranges[0], pos, visits[0], false);
        InOrderNeverCloses(ranges[1..], Some(ranges[0]), MovedBy(pos, visits[0]), visits[1..]);
      }
    }
  }

  lemma {:induction false} IdlesNeverClose(current: Option<ItemRange>, next: Option<ItemRange>, pos: nat,
                                           ops: seq<DcpOp>)
    requires IsIdle(current, next, pos, ops)
    ensures NeverCloses(ops)
    decreases |ops|
  {
    if ops != [] { IdlesNeverClose(AfterIdle(current, next, pos, ops[0]), next, Moved(pos, ops[0]), ops[1..]); }
  }

  lemma {:induction false} VisitNeverCloses(item: ItemRange, pos: nat, ops: seq<DcpOp>, touched: bool)
    requires IsVisit(item, pos, ops, touched)
    ensures NeverCloses(ops)
    decreases |ops|
  {
    if ops != [] { VisitNeverCloses(item, Moved(pos, ops[0]), ops[1..], touched || Asked(ops[0]) > 0); }
  }

  /**
    The end-to-end theorem for one file: the prepared constructor hands out exactly the file's sorted
    ranges, a reader can be created over them, and reading its items in plan order never raises.
   */
  lemma PlannedFileLoads(constr: DCPOptimizedConstructor, content: Bytes, storage: StorageData, base: string,
                         items: seq<ReadItem>, item: ReadItem, visits: seq<seq<DcpOp>>)
    requires Known(storage, items) && item in items
    requires SplitByFile(constr.itemRangesByFile, storage, base, SortedByOffset(storage, items))
    requires ParseS3Uri(base).Ok? && !("/" <= storage[item.storageIndex].relativePath)
    requires ByDcp(UriOf(storage, base, item))
    requires WellPlanned(storage, base, items, UriOf(storage, base, item), content, visits)
    ensures var path := UriOf(storage, base, item);
            && ParseS3Uri(path).Ok?
            && var choice := constr.Call(ParseS3Uri(path).value.0, ParseS3Uri(path).value.1);
            && choice.Ok? && choice.value.UseDcp? && choice.value.maxGapSize == constr.maxGapSize
            && ParseS3Uri(path).value.0 != "" && ParseS3Uri(path).value.1 != "" && Servable(choice.value.itemRanges)
            && var run := DcpRun(content, NonEmpty(choice.value.itemRanges), constr.maxGapSize, FRESH, Flatten(visits));
            run.Some? && run.value.0.loaded && run.value.0.index + 1 == |NonEmpty(choice.value.itemRanges)|
  {
    hide Acceptable, Proper, Disjoint, ReadsInOrder, DcpRun, Flatten, RangesOf, SplitByFile;
    var path := UriOf(storage, base, item);
    SortIsStable(storage, items, 0);
    assert item in multiset(items) && item in SortedByOffset(storage, items);
    PlannedFileFindsItsRanges(constr, storage, base, SortedByOffset(storage, items), item);
    WellPlannedIsServable(storage, base, items, path, content, visits);
    ParsedShape(path);
    FreshRunAccepted(content, RangesOf(storage, base, SortedByOffset(storage, items), path), constr.maxGapSize, visits);
  }

  /** The file can be opened, the object has the bytes that are planned, and they are read in plan order. */
  ghost predicate WellPlanned(storage: StorageData, base: string, items: seq<ReadItem>, uri: string, content: Bytes,
                              visits: seq<seq<DcpOp>>)
    requires Known(storage, items)
  {
    SameMembers(storage, base, items, uri);
    var ranges := RangesOf(storage, base, items, uri);
    && Openable(storage, base, items, uri)
    && (forall r <- ranges :: r.start != r.end ==> r.end <= |content|)
    && ReadsInOrder(RangesOf(storage, base, SortedByOffset(storage, items), uri), None, 0, visits)
  }

  lemma WellPlannedIsServable(storage: StorageData, base: string, items: seq<ReadItem>, uri: string, content: Bytes,
                              visits: seq<seq<DcpOp>>)
    requires Known(storage, items) && WellPlanned(storage, base, items, uri, content, visits)
    ensures Known(storage, SortedByOffset(storage, items))
    ensures var ranges := RangesOf(storage, base, SortedByOffset(storage, items), uri);
            && Servable(ranges) && ReadsInOrder(ranges, None, 0, visits) && forall r <- NonEmpty(ranges) :: r.end <= |content|
  {
    hide Acceptable, Proper, Disjoint, ReadsInOrder, RangesOf;
    PlannedRangesServedIff(storage, base, items, uri);
    SameMembers(storage, base, items, uri);
  }

  /** A run that can go on to the last item goes on, and its log is complete. */
  lemma CompleteRunIsLogged(content: Bytes, answers: Answers, items: seq<ItemRange>, limit: GapLimit,
                            ops: seq<DcpOp>, log: RunLog)
    requires Acceptable(items) && items != [] && NeverCloses(ops) && |log.answers| <= |ops|
    requires var run := DcpRun(content, items, limit, FRESH, ops);
             run.Some? && run.value.0.loaded && run.value.0.index + 1 == |items|
    requires Logged(content, answers, items, limit, ops[..|log.answers|], log)
    requires |log.answers| < |ops| ==> DcpRun(content, items, limit, FRESH, ops[..|log.answers| + 1]).None?
    ensures |log.answers| == |ops| && log.answers == DcpRun(content, items, limit, FRESH, ops).value.1
    ensures log.requests == Opened(Groups(items, limit)) && Sum(log.reports) == TotalWidth(Groups(items, limit))
  {
    var k := |log.answers|;
    if k < |ops| {
      RunPrefix(content, items, limit, FRESH, ops, k + 1);
    }
    assert ops[..|ops|] == ops;
  }

  /** Every call was answered as specified, every group requested once, and every byte of the groups reported. */
  ghost predicate Complete(content: Bytes, ranges: seq<ItemRange>, limit: GapLimit, visits: seq<seq<DcpOp>>,
                           log: RunLog)
    requires Servable(ranges)
  {
    var run := DcpRun(content, NonEmpty(ranges), limit, FRESH, Flatten(visits));
    && run.Some? && log.answers == run.value.1
    && log.requests == Opened(Groups(NonEmpty(ranges), limit))
    && Sum(log.reports) == FileTotal(ranges, limit)
  }

  /**
    Loads one file: a reader over its ranges, driven through the blocks in order.  Every call
    succeeds; there was one request per range group, in order and with the group's bounds; and the
    bytes reported to the progress callback add up to the total of `CoalescedStreamTotalBytes`.
   */
  method LoadFile(content: Bytes, answers: Answers, bucket: string, key: string, ranges: seq<ItemRange>,
                  limit: GapLimit,
                  visits: seq<seq<DcpOp>>) returns (log: RunLog, total: int)
    requires HonestAnswers(content, answers) && OrderlyAnswers(content, answers)
    requires bucket != "" && key != "" && NonNegative(limit)
    requires Servable(ranges) && forall r <- NonEmpty(ranges) :: r.end <= |content|
    requires ReadsInOrder(ranges, None, 0, visits)
    ensures Complete(content, ranges, limit, visits, log) && total == FileTotal(ranges, limit)
  {
    hide Groups, TotalWidth, Opened, RequestsUpTo, HonestAnswers, OrderlyAnswers, Acceptable, NonEmpty, DcpRun;
    hide Flatten, NeverCloses, ReadsInOrder, Logged, Facing;
    ghost var items, ops := NonEmpty(ranges), Flatten(visits);
    FreshRunAccepted(content, ranges, limit, visits);
    InOrderNeverCloses(ranges, None, 0, visits);
    total := CoalescedStreamTotalBytes(ranges, limit);
    var run, peak := RunDcpReader(content, answers, bucket, key, ranges, limit, Flatten(visits));
    log := run.value;
    CompleteRunIsLogged(content, answers, items, limit, ops, log);
  }

  // ---------- a whole plan, with its progress bar ----------

  /** One file of a load: the object, how S3 will answer, and how its items will be read. */
  datatype File = File(content: Bytes, answers: Answers, visits: seq<seq<DcpOp>>)

  ghost predicate Loadable(file: File, uri: string, ranges: seq<ItemRange>) {
    && KeyOf(uri) != ""
    && HonestAnswers(file.content, file.answers) && OrderlyAnswers(file.content, file.answers)
    && Servable(ranges) && (forall r <- NonEmpty(ranges) :: r.end <= |file.content|)
    && ReadsInOrder(ranges, None, 0, file.visits)
  }

  /** A file has something to deliver exactly when one of its ranges has bytes. */
  lemma TotalIsNatural(ranges: seq<ItemRange>, limit: GapLimit)
    requires Acceptable(NonEmpty(ranges))
    ensures FileTotal(ranges, limit) >= 0
    ensures FileTotal(ranges, limit) == 0 <==> NonEmpty(ranges) == []
  {
    var groups := Groups(NonEmpty(ranges), limit);
    GroupBounds(NonEmpty(ranges), limit);
    if groups != [] {
      var n := |groups| - 1;
      assert groups[n] in groups && groups[..0] == [];
      forall g <- groups[..n] ensures 0 <= g.start < g.end { assert g in groups; }
      PrefixWidth(groups[..n], 0);
      assert groups[..n][..0] == [];
    }
  }

  /** The files of `order` whose readers report to the bar. */
  function Reporting(order: seq<string>): set<string> {
    set uri | uri in order && ByDcp(uri)
  }

  /** The constructor can be asked for every file of its table, and each can be loaded. */
  ghost predicate Ready(constr: DCPOptimizedConstructor, files: map<string, File>)
    reads constr
  {
    && NonNegative(constr.maxGapSize) && constr.progress == constr.Announced()
    && (forall uri <- constr.itemRangesByFile ::
          && Acceptable(NonEmpty(constr.itemRangesByFile[uri])) && IsRemote(uri)
          && (ByDcp(uri) ==> uri in files && Loadable(files[uri], uri, constr.itemRangesByFile[uri])))
  }

  /** The URI survives being parsed and put together again. */
  predicate IsRemote(uri: string) {
    ParseS3Uri(uri).Ok? && Rebuild(ParseS3Uri(uri).value.0, ParseS3Uri(uri).value.1) == uri
  }

  predicate Distinct(order: seq<string>) {
    forall i, j :: 0 <= i < j < |order| ==> order[i] != order[j]
  }

  // ---------- the values the bar passes through ----------

  /** A bar that stands at `start`, after each of the counts. */
  function Climb(start: int, counts: seq<nat>): seq<int> {
    seq(|counts|, k requires 0 <= k < |counts| => start + Sum(counts[..k + 1]))
  }

  lemma ClimbConcat(start: int, a: seq<nat>, b: seq<nat>)
    ensures Climb(start, a + b) == Climb(start, a) + Climb(start + Sum(a), b)
  {
    forall k | 0 <= k < |a + b|
      ensures Climb(start, a + b)[k] == (Climb(start, a) + Climb(start + Sum(a), b))[k]
    {
      if k < |a| {
        assert (a + b)[..k + 1] == a[..k + 1];
      } else {
        assert (a + b)[..k + 1] == a + b[..k + 1 - |a|];
        SumConcat(a, b[..k + 1 - |a|]);
      }
    }
  }

  lemma ClimbAppend(start: int, counts: seq<nat>, count: nat)
    ensures Climb(start, counts + [count]) == Climb(start, counts) + [start + Sum(counts) + count]
  {
    ClimbConcat(start, counts, [count]);
    assert [count] == [] + [count] && [count][..1] == [count];
    SumAppend([], count);
  }

  lemma NothingCounted()
    ensures Sum([]) == 0 && forall start: int :: Climb(start, []) == []
  {
  }

  lemma ClimbBounded(start: int, counts: seq<nat>)
    ensures forall m <- Climb(start, counts) :: m <= start + Sum(counts)
  {
    forall k | 0 <= k < |counts| ensures Climb(start, counts)[k] <= start + Sum(counts) {
      assert counts == counts[..k + 1] + counts[k + 1..];
      SumConcat(counts[..k + 1], counts[k + 1..]);
    }
  }

  /** Hands a reader's byte counts to the bar, one after the other; `marks` is where it stands after each. */
  method Report(constr: DCPOptimizedConstructor, reports: seq<nat>) returns (marks: seq<int>)
    modifies constr`progress
    ensures constr.progress.Some? <==> old(constr.progress).Some?
    ensures constr.progress.None? ==> marks == []
    ensures constr.progress.Some? ==>
              && constr.progress.value.total == old(constr.progress).value.total
              && constr.progress.value.done == old(constr.progress).value.done + Sum(reports)
              && marks == Climb(old(constr.progress).value.done, reports)
  {
    hide Climb, Sum;
    marks := [];
    NothingCounted();
    for k := 0 to |reports|
      invariant constr.progress.Some? <==> old(constr.progress).Some?
      invariant constr.progress.None? ==> marks == []
      invariant constr.progress.Some? ==>
          && constr.progress.value.total == old(constr.progress).value.total
          && constr.progress.value.done == old(constr.progress).value.done + Sum(reports[..k])
          && marks == Climb(old(constr.progress).value.done, reports[..k])
    {
      assert reports[..k + 1] == reports[..k] + [reports[k]];
      SumAppend(reports[..k], reports[k]);
      if constr.progress.Some? { ClimbAppend(old(constr.progress).value.done, reports[..k], reports[k]); }
      constr.UpdateProgress(reports[k]);
      if constr.progress.Some? { marks := marks + [constr.progress.value.done]; }
    }
    assert reports[..|reports|] == reports;
  }

  function Counts(log: Option<RunLog>): seq<nat> {
    if log.Some? then log.value.reports else []
  }

  function AllCounts(logs: seq<Option<RunLog>>): seq<nat> {
    if logs == [] then [] else AllCounts(logs[..|logs| - 1]) + Counts(logs[|logs| - 1])
  }

  /** A planned file was read in full by a reader that reports, or by one that does not. */
  ghost predicate Loaded(table: map<string, seq<ItemRange>>, limit: GapLimit, files: map<string, File>, uri: string,
                         log: Option<RunLog>) {
    && (log.Some? <==> ByDcp(uri))
    && (log.Some? ==>
          && uri in table && uri in files && Servable(table[uri])
          && Complete(files[uri].content, table[uri], limit, files[uri].visits, log.value))
  }

  /** Opens one file through the constructor and loads it. */
  method LoadOne(constr: DCPOptimizedConstructor, files: map<string, File>, uri: string)
    returns (log: Option<RunLog>, marks: seq<int>)
    requires uri in constr.itemRangesByFile && IsRemote(uri) && NonNegative(constr.maxGapSize)
    requires ByDcp(uri) ==> uri in files && Loadable(files[uri], uri, constr.itemRangesByFile[uri])
    modifies constr`progress
    ensures Loaded(constr.itemRangesByFile, constr.maxGapSize, files, uri, log)
    ensures constr.progress.Some? <==> old(constr.progress).Some?
    ensures constr.progress.None? ==> marks == []
    ensures constr.progress.Some? ==>
              && constr.progress.value.total == old(constr.progress).value.total
              && constr.progress.value.done == old(constr.progress).value.done + Sum(Counts(log))
              && marks == Climb(old(constr.progress).value.done, Counts(log))
  {
    hide FileTotal, ReadsInOrder, Servable, Complete, HonestAnswers, OrderlyAnswers, NonEmpty;
      var (bucket, key) := ParseS3Uri(uri).value;
    ParsedShape(uri);
    var choice := constr.Call(bucket, key).value;
    match choice {
      case UseSequential =>
        log, marks := None, [];
      case UseDcp(ranges, maxGapSize) =>
        var file := files[uri];
        var run, total := LoadFile(file.content, file.answers, bucket, key, ranges, maxGapSize, file.visits);
        log := Some(run);
        marks := Report(constr, run.reports);
    }
  }

  /**
    Loads some of the planned files through the constructor, each once, in any order.  Each is read in
    full.  The bar stands after every byte count reported where the counts so far add up to, so it
    never passes the total that was announced for the whole plan; and it is full exactly when every
    file that has bytes was loaded by a reader that reports.
   */
  method LoadFiles(constr: DCPOptimizedConstructor, files: map<string, File>, order: seq<string>)
    returns (logs: seq<Option<RunLog>>, marks: seq<int>)
    requires Ready(constr, files) && Distinct(order) && forall uri <- order :: uri in constr.itemRangesByFile
    modifies constr`progress
    ensures |logs| == |order|
    ensures forall k :: 0 <= k < |order| ==>
                          Loaded(constr.itemRangesByFile, constr.maxGapSize, files, order[k], logs[k])
    ensures BarAfter(old(constr.progress), constr.progress, constr.itemRangesByFile, order, logs, marks)
  {
    hide FileTotal, PlannedTotal, Loadable, Loaded, Acceptable, IsRemote, ByDcp, NonEmpty, Climb, Sum, AllCounts;
    hide Counts, Reporting;
    ghost var table, limit := constr.itemRangesByFile, constr.maxGapSize;
    NothingLoaded(table, limit);
    logs, marks := [], [];
    for k := 0 to |order|
      invariant |logs| == k
      invariant forall i :: 0 <= i < k ==> Loaded(table, limit, files, order[i], logs[i])
      invariant constr.progress.Some? <==> old(constr.progress).Some?
      invariant constr.progress.None? ==> marks == []
      invariant Reporting(order[..k]) <= table.Keys
      invariant Sum(AllCounts(logs)) == PlannedTotal(table, limit, Reporting(order[..k]))
      invariant constr.progress.Some? ==>
          && constr.progress.value.total == old(constr.progress).value.total
          && constr.progress.value.done == Sum(AllCounts(logs))
          && marks == Climb(0, AllCounts(logs))
    {
      OneMoreFile(table, limit, order, k);
      var log, more := LoadOne(constr, files, order[k]);
      CountsOfFile(table, limit, files, order[k], log);
      OneMoreLog(logs, log);
      logs, marks := logs + [log], marks + more;
    }
    assert order[..|order|] == order;
    FullExactlyWhen(table, limit, Reporting(order));
    ClimbBounded(0, AllCounts(logs));
  }

  /** The bar `before`, announced and untouched, has become `after`. */
  ghost predicate BarAfter(before: Option<ProgressBar>, after: Option<ProgressBar>, table: map<string, seq<ItemRange>>,
                           order: seq<string>, logs: seq<Option<RunLog>>, marks: seq<int>)
  {
    && (after.Some? <==> before.Some?)
    && (after.None? ==> marks == [])
    && (after.Some? ==>
          && after.value.total == before.value.total
          && marks == Climb(0, AllCounts(logs)) && after.value.done == Sum(AllCounts(logs))
          && (forall m <- marks :: m <= after.value.done) && after.value.done <= after.value.total
          && (after.value.done == after.value.total <==>
              forall uri <- table :: NonEmpty(table[uri]) != [] ==> uri in Reporting(order)))
  }

  lemma OneMoreLog(logs: seq<Option<RunLog>>, log: Option<RunLog>)
    ensures Sum(AllCounts(logs + [log])) == Sum(AllCounts(logs)) + Sum(Counts(log))
    ensures Climb(0, AllCounts(logs + [log])) == Climb(0, AllCounts(logs)) + Climb(Sum(AllCounts(logs)), Counts(log))
  {
    assert (logs + [log])[..|logs|] == logs;
    SumConcat(AllCounts(logs), Counts(log));
    ClimbConcat(0, AllCounts(logs), Counts(log));
  }

  lemma CountsOfFile(table: map<string, seq<ItemRange>>, limit: GapLimit, files: map<string, File>, uri: string,
                     log: Option<RunLog>)
    requires uri in table && Loaded(table, limit, files, uri, log)
    ensures Sum(Counts(log)) == if ByDcp(uri) then FileTotal(table[uri], limit) else 0
  {
  }

  /** There is a bar exactly if progress is wanted and some planned file has bytes. */
  lemma BarExistsIff(constr: DCPOptimizedConstructor)
    requires forall uri <- constr.itemRangesByFile :: Acceptable(NonEmpty(constr.itemRangesByFile[uri]))
    ensures constr.Announced().Some? <==>
            constr.enableProgress && exists uri <- constr.itemRangesByFile :: NonEmpty(constr.itemRangesByFile[uri]) != []
  {
    hide Acceptable, NonEmpty, FileTotal, PlannedTotal;
    NothingLoaded(constr.itemRangesByFile, constr.maxGapSize);
    FullExactlyWhen(constr.itemRangesByFile, constr.maxGapSize, {});
  }

  /** A range with bytes in the table belongs to an item with bytes. */
  lemma BytesHaveItem(table: map<string, seq<ItemRange>>, storage: StorageData, base: string, items: seq<ReadItem>,
                      uri: string)
    requires SplitByFile(table, storage, base, items) && uri in table && NonEmpty(table[uri]) != []
    ensures Known(storage, items) && HasBytes(storage, items)
  {
    hide RangesOf;
    var r := NonEmpty(table[uri])[0];
    assert r in NonEmpty(table[uri]);
    var item := RangeHasItem(storage, base, items, uri, r);
    assert storage[item.storageIndex].length != 0;
  }

  /** And an item with bytes puts a range with bytes into the table. */
  lemma ItemHasBytes(table: map<string, seq<ItemRange>>, storage: StorageData, base: string, items: seq<ReadItem>)
    returns (uri: string)
    requires SplitByFile(table, storage, base, items) && Known(storage, items) && HasBytes(storage, items)
    ensures uri in table && NonEmpty(table[uri]) != []
  {
    hide RangesOf;
    var item :| item in items && storage[item.storageIndex].length != 0;
    RangeOfItemListed(storage, base, items, item);
    var info := storage[item.storageIndex];
    uri := UriOf(storage, base, item);
    assert ItemRange(info.offset, info.offset + info.length) in NonEmpty(table[uri]);
  }

  /** The same in terms of the plan. */
  lemma BarForPlan(constr: DCPOptimizedConstructor, storage: StorageData, base: string, items: seq<ReadItem>)
    requires SplitByFile(constr.itemRangesByFile, storage, base, items)
    requires forall uri <- constr.itemRangesByFile :: Acceptable(NonEmpty(constr.itemRangesByFile[uri]))
    ensures Known(storage, items)
    ensures constr.Announced().Some? <==> constr.enableProgress && HasBytes(storage, items)
  {
    hide Acceptable, RangesOf, PlannedTotal, HasBytes, NonEmpty;
    BarExistsIff(constr);
    var table := constr.itemRangesByFile;
    if HasBytes(storage, items) {
      var uri := ItemHasBytes(table, storage, base, items);
    }
    if uri :| uri in table && NonEmpty(table[uri]) != [] {
      BytesHaveItem(table, storage, base, items, uri);
    }
  }

  lemma FullExactlyWhen(table: map<string, seq<ItemRange>>, limit: GapLimit, some: set<string>)
    requires some <= table.Keys && forall uri <- table :: Acceptable(NonEmpty(table[uri]))
    ensures PlannedTotal(table, limit, some) <= PlannedTotal(table, limit, table.Keys)
    ensures PlannedTotal(table, limit, some) == PlannedTotal(table, limit, table.Keys) <==>
            forall uri <- table :: NonEmpty(table[uri]) != [] ==> uri in some
  {
    hide FileTotal, PlannedTotal, NonEmpty, Acceptable;
    forall uri <- table.Keys
      ensures FileTotal(table[uri], limit) >= 0 && (FileTotal(table[uri], limit) == 0 <==> NonEmpty(table[uri]) == [])
    {
      TotalIsNatural(table[uri], limit);
    }
    PlannedTotalGrows(table, limit, some, table.Keys);
  }

  /** A planned metadata file is announced like the others, but it is read by a reader that does not report. */
  lemma MetadataIsNotReported(limit: GapLimit)
    ensures var (uri, table) := ("s3://b/.metadata", map["s3://b/.metadata" := [ItemRange(0, 1)]]);
            PlannedTotal(table, limit, table.Keys) > 0 && IsRemote(uri) && Reporting([uri]) == {}
  {
    var uri, ranges := "s3://b/.metadata", [ItemRange(0, 1)];
    var table := map[uri := ranges];
    assert Rebuild("b", ".metadata") == uri;
    ParseOfRebuild("b", ".metadata");
    assert ".metadata"[0..] == METADATA_SUFFIX;
    assert ranges[1..] == [] && NonEmpty(ranges) == ranges;
    hide NonEmpty, ParseS3Uri, Rebuild, FileTotal, PlannedTotal;
    TotalIsNatural(ranges, limit);
    PlannedTotalSplit(table, limit, table.Keys, uri);
    assert table.Keys - {uri} == {};
    NothingLoaded(table, limit);
  }

  lemma NothingLoaded(table: map<string, seq<ItemRange>>, limit: GapLimit)
    ensures Reporting([]) == {} && PlannedTotal(table, limit, {}) == 0
    ensures AllCounts([]) == [] && Sum([]) == 0 && Climb(0, []) == []
  {
  }

  lemma OneMoreFile(table: map<string, seq<ItemRange>>, limit: GapLimit, order: seq<string>, k: nat)
    requires k < |order| && Distinct(order) && forall uri <- order :: uri in table
    ensures Reporting(order[..k]) <= table.Keys && Reporting(order[..k + 1]) <= table.Keys
    ensures PlannedTotal(table, limit, Reporting(order[..k + 1])) ==
            (if ByDcp(order[k]) then FileTotal(table[order[k]], limit) else 0)
            + PlannedTotal(table, limit, Reporting(order[..k]))
  {
    hide FileTotal, PlannedTotal, ByDcp;
    var uri, more := order[k], Reporting(order[..k + 1]);
    assert order[..k + 1] == order[..k] + [uri];
    if ByDcp(uri) {
      assert more - {uri} == Reporting(order[..k]);
      PlannedTotalSplit(table, limit, more, uri);
    } else {
      assert more == Reporting(order[..k]);
    }
  }

  /** What a caller knows of a plan before it is prepared. */
  ghost predicate SoundPlan(storage: StorageData, base: string, items: seq<ReadItem>, files: map<string, File>)
    requires Known(storage, items)
  {
    ParseS3Uri(base).Ok?
    && forall item <- items ::
      var uri := UriOf(storage, base, item);
      && !("/" <= storage[item.storageIndex].relativePath)
      && Proper(RangesOf(storage, base, items, uri)) && Disjoint(RangesOf(storage, base, items, uri))
      && (ByDcp(uri) ==> && uri in files
                         && HonestAnswers(files[uri].content, files[uri].answers)
                         && OrderlyAnswers(files[uri].content, files[uri].answers)
                         && WellPlanned(storage, base, items, uri, files[uri].content, files[uri].visits))
  }

  lemma SoundPlanIsReady(constr: DCPOptimizedConstructor, storage: StorageData, base: string, items: seq<ReadItem>,
                         files: map<string, File>)
    requires Known(storage, items) && SoundPlan(storage, base, items, files)
    requires SplitByFile(constr.itemRangesByFile, storage, base, SortedByOffset(storage, items))
    requires NonNegative(constr.maxGapSize) && constr.progress == constr.Announced()
    ensures Ready(constr, files)
  {
    var sorted := SortedByOffset(storage, items);
    SortIsStable(storage, items, 0);
    forall uri <- constr.itemRangesByFile
      ensures Acceptable(NonEmpty(constr.itemRangesByFile[uri])) && IsRemote(uri)
      ensures ByDcp(uri) ==> uri in files && Loadable(files[uri], uri, constr.itemRangesByFile[uri])
    {
      hide RangesOf, Acceptable, Proper, Disjoint, ReadsInOrder, HonestAnswers, OrderlyAnswers, NonEmpty;
      hide WellPlanned, Servable, SortedByOffset;
      var item := ListedFileHasItem(storage, base, sorted, uri);
      assert item in multiset(sorted) && item in items;
      JoinedPathRoundTrips(base, storage[item.storageIndex].relativePath);
      PlannedRangesAccepted(storage, base, items, uri);
      if ByDcp(uri) { WellPlannedIsServable(storage, base, items, uri, files[uri].content, files[uri].visits); }
    }
  }

  /**
    The end-to-end theorem for a whole plan: prepare it, then open planned files by their paths and read each
    one's items in plan order.  Nothing raises, every file is read in full, and the bar behaves as `BarAfter` says.
   */
  method PrepareAndLoad(plan: LoadPlan, storage: StorageData, base: string, constr: DCPOptimizedConstructor,
                        files: map<string, File>, order: seq<string>)
    returns (r: Result<()>, logs: seq<Option<RunLog>>, marks: seq<int>)
    requires Known(storage, plan.items)
    requires SoundPlan(storage, base, plan.items, files) && NonNegative(constr.maxGapSize)
    requires Distinct(order) && forall uri <- order :: RangesOf(storage, base, plan.items, uri) != []
    modifies plan, constr
    ensures r.Ok? && plan.items == SortedByOffset(storage, old(plan.items))
    ensures SplitByFile(constr.itemRangesByFile, storage, base, plan.items)
    ensures |logs| == |order|
    ensures forall k :: 0 <= k < |order| ==>
                          Loaded(constr.itemRangesByFile, constr.maxGapSize, files, order[k], logs[k])
    ensures constr.progress.Some? <==> constr.enableProgress && HasBytes(storage, old(plan.items))
    ensures BarAfter(constr.Announced(), constr.progress, constr.itemRangesByFile, order, logs, marks)
  {
    hide SoundPlan, SplitByFile, Ready, RangesOf, NonEmpty, PlannedTotal, SortedByOffset, Loaded, HasBytes;
    ghost var items := plan.items;
    r := PrepareLocalPlan(plan, storage, base, constr);
    SoundPlanIsReady(constr, storage, base, items, files);
    ReadyBar(constr, files, storage, base, items);
    forall uri <- order ensures uri in constr.itemRangesByFile {
      OrderedIsListed(constr.itemRangesByFile, storage, base, items, uri);
    }
    logs, marks := LoadFiles(constr, files, order);
  }

  /** Some item of the plan has bytes. */
  ghost predicate HasBytes(storage: StorageData, items: seq<ReadItem>)
    requires Known(storage, items)
  {
    exists item <- items :: storage[item.storageIndex].length != 0
  }

  lemma SortedHasBytes(storage: StorageData, items: seq<ReadItem>)
    requires Known(storage, items)
    ensures Known(storage, SortedByOffset(storage, items))
    ensures HasBytes(storage, items) <==> HasBytes(storage, SortedByOffset(storage, items))
  {
    hide SortedByOffset, OffsetsAscend, AtOffset;
    var sorted := SortedByOffset(storage, items);
    SortKeepsRanges(storage, "", items, "", 0);
    SortIsStable(storage, items, 0);
    forall item ensures item in items <==> item in sorted {
      assert item in items <==> item in multiset(items);
      assert item in sorted <==> item in multiset(sorted);
    }
  }

  lemma ReadyBar(constr: DCPOptimizedConstructor, files: map<string, File>, storage: StorageData, base: string,
                 items: seq<ReadItem>)
    requires Ready(constr, files) && Known(storage, items)
    requires SplitByFile(constr.itemRangesByFile, storage, base, SortedByOffset(storage, items))
    ensures constr.progress.Some? <==> constr.enableProgress && HasBytes(storage, items)
  {
    hide Acceptable, SortedByOffset, SplitByFile, Loadable, HasBytes;
    SortedHasBytes(storage, items);
    BarForPlan(constr, storage, base, SortedByOffset(storage, items));
  }

  lemma OrderedIsListed(table: map<string, seq<ItemRange>>, storage: StorageData, base: string,
                        items: seq<ReadItem>, uri: string)
    requires Known(storage, items)
    requires SplitByFile(table, storage, base, SortedByOffset(storage, items)) && RangesOf(storage, base, items, uri) != []
    ensures uri in table
  {
    SameMembers(storage, base, items, uri);
    assert RangesOf(storage, base, items, uri)[0] in RangesOf(storage, base, items, uri);
  }
}
