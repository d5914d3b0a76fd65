/**
  The DCP-optimised reader (dcp_optimized.py, `DCPOptimizedS3Reader`).

  One stream serves a whole range group.  Between two items the reader keeps the unused tail of the
  last chunk; loading an item takes from that tail, skips gap bytes, then fetches.  Every method is
  proved against `DcpSpec`, which knows nothing of this.
 */
module DcpReaders {
  import opened Results
  import opened ByteStreams
  import opened FileSpec
  import opened ItemViewBuffers
  import opened RangeGroups
  import opened DcpSpec

  /** The requests for the streams of `groups`, in order. */
  function Opened(groups: seq<RangeGroup>): (r: seq<Request>)
    ensures |r| == |groups|
  {
    seq(|groups|, g requires 0 <= g < |groups| => GroupRequest(groups[g]))
  }

  /** `get_stream(group.start, group.end)`; the bounds of a group are never negative (`GroupBounds`). */
  function GroupRequest(g: RangeGroup): Request {
    Bounded(Max(0, g.start), Max(0, g.end))
  }

  lemma GroupBounds(items: seq<ItemRange>, limit: GapLimit)
    requires Acceptable(items)
    ensures forall group <- Groups(items, limit) :: 0 <= group.start < group.end
  {
    var groups := Groups(items, limit);
    forall g | 0 <= g < |groups| ensures 0 <= groups[g].start < groups[g].end {
      GroupItems(items, limit, g);
      var lo, hi := FirstOf(items, limit, g), FirstOf(items, limit, g + 1);
      assert items[lo].end <= items[hi - 1].end;
    }
  }

  /** One more group: one more request, and its width more to fetch. */
  lemma OneMoreGroup(groups: seq<RangeGroup>, g: nat)
    requires g < |groups|
    ensures Opened(groups[..g + 1]) == Opened(groups[..g]) + [GroupRequest(groups[g])]
    ensures TotalWidth(groups[..g + 1]) == TotalWidth(groups[..g]) + groups[g].end - groups[g].start
  {
    assert groups[..g + 1] == groups[..g] + [groups[g]];
    TotalWidthAppend(groups[..g], groups[g]);
  }

  lemma {:induction false} PrefixWidth(groups: seq<RangeGroup>, g: nat)
    requires g <= |groups| && forall x <- groups :: 0 <= x.start < x.end
    ensures TotalWidth(groups[..g]) <= TotalWidth(groups)
    decreases |groups| - g
  {
    if g < |groups| {
      assert groups[g] in groups;
      OneMoreGroup(groups, g);
      PrefixWidth(groups, g + 1);
    } else {
      assert groups[..g] == groups;
    }
  }

  /** The leftover bytes, none if there is no leftover. */
  function Tail(leftover: Option<Bytes>): Bytes {
    if leftover.Some? then leftover.value else []
  }

  /** The stream is read up to the end of the leftover, which starts at `pos`. */
  ghost predicate TailAt(content: Bytes, pos: int, leftover: Option<Bytes>, offset: nat) {
    && pos + |Tail(leftover)| == offset
    && (leftover.Some? ==> |leftover.value| > 0 && 0 <= pos && offset <= |content| && leftover.value == content[pos..offset])
  }

  /** Midway through loading `item`: `got` is its front, `bytesLeft` is what is missing. */
  ghost predicate Loading(content: Bytes, item: ItemRange, pos: int, leftover: Option<Bytes>, offset: nat,
                          got: Bytes, bytesLeft: int) {
    && 0 <= item.start < item.end
    && TailAt(content, pos, leftover, offset)
    && bytesLeft == item.end - item.start - |got| >= 0
    && item.start + |got| <= Max(item.start, |content|)
    && (got != [] ==>
          && item.start + |got| <= |content| && got == content[item.start..item.start + |got|]
          && pos == item.start + |got|)
    && (got == [] ==> pos <= item.start)
    && (leftover.Some? ==> bytesLeft == 0)
  }

  class DCPOptimizedS3Reader {
    const store: ObjectStore
    const itemRanges: seq<ItemRange>
    const maxGapSize: GapLimit
    const rangeGroups: seq<RangeGroup>
    const groupStartToGroup: map<int, RangeGroup>
    var stream: GetObjectStream?
    var streamPosition: int
    var leftover: Option<Bytes>
    var nextItem: nat  // the item iterator: index of the item `next` would return
    var currentItem: ItemRange
    var currentItemBuffer: ItemViewBuffer?
    var position: int
    var closed: bool
    var reports: seq<nat>  // the byte counts handed to the progress callback
    ghost var index: nat  // index of the current item
    ghost var group: nat  // index of the range group the stream serves
    ghost const earlier: seq<Request>  // requests made before this reader existed

    ghost function Content(): Bytes {
      store.content
    }

    // ---------- invariant ----------

    /** What `__init__` established about the ranges and groups, which never change. */
    ghost predicate Layout() {
      && store.Valid()
      && Acceptable(itemRanges) && itemRanges != [] && NonNegative(maxGapSize)
      && rangeGroups == Groups(itemRanges, maxGapSize)
      && IsStartTable(groupStartToGroup, rangeGroups)
      && (forall g <- rangeGroups :: 0 <= g.start < g.end)
    }

    /** The open stream serves range group `group` and is read up to the end of the leftover. */
    ghost predicate StreamInGroup()
      reads this`stream, this`streamPosition, this`leftover, this`group, this`reports, this`closed, store, stream
    {
      && stream != null && stream.Valid() && stream.content == Content()
      && group < |rangeGroups|
      && 0 <= rangeGroups[group].start < rangeGroups[group].end
      && rangeGroups[group].start <= stream.offset
      && stream.limit == RequestLimit(Content(), Bounded(rangeGroups[group].start, rangeGroups[group].end))
      && TailAt(Content(), streamPosition, leftover, stream.offset)
      && (store.Orderly() ==> stream.Orderly())
      && stream.OnTrack()
      && (stream.lastStart < streamPosition || stream.lastStart == rangeGroups[group].start)
      && (!closed ==> Accounted())
    }

    /** Each group up to the current one was requested once, and all but its rest is fetched. */
    ghost predicate Accounted()
      requires stream != null && group < |rangeGroups|
      reads this`stream, this`group, this`reports, store, stream
    {
      && store.requests == earlier + Opened(rangeGroups[..group + 1])
      && stream.parts == store.answers(|earlier| + group, GroupRequest(rangeGroups[group]))
      && stream.start == rangeGroups[group].start
      && Sum(reports) == TotalWidth(rangeGroups[..group]) + stream.offset - rangeGroups[group].start
    }

    ghost predicate Valid()
      reads this, store, stream, currentItemBuffer
    {
      && ValidButIterator()
      && nextItem == index + 1
    }

    ghost predicate ValidButIterator()
      reads this, store, stream, currentItemBuffer
    {
      && Layout()
      && index < |itemRanges| && currentItem == itemRanges[index] && 0 <= currentItem.start < currentItem.end
      && position >= 0
      && (currentItemBuffer == null ==>
            && stream == null
            && (!closed ==> index == 0 && Sum(reports) == 0 && store.requests == earlier))
      && (currentItemBuffer != null ==>
            && stream != null && StreamInGroup()
            && group == GroupIndex(itemRanges, maxGapSize, index)
            && streamPosition == currentItem.end <= |Content()|
            && currentItemBuffer.Valid()
            && currentItemBuffer.Contents() == Content()[currentItem.start..currentItem.end])
    }

    ghost function State(): DcpState
      reads this
      requires position >= 0
    {
      DcpState(index, currentItemBuffer != null, closed, position)
    }

    constructor (store: ObjectStore, itemRanges: seq<ItemRange>, maxGapSize: GapLimit,
                 rangeGroups: seq<RangeGroup>, groupStartToGroup: map<int, RangeGroup>)
      requires store.Valid()
      requires Acceptable(itemRanges) && itemRanges != [] && NonNegative(maxGapSize)
      requires rangeGroups == Groups(itemRanges, maxGapSize) && IsStartTable(groupStartToGroup, rangeGroups)
      ensures Valid() && State() == FRESH
      ensures this.store == store && this.itemRanges == itemRanges && this.maxGapSize == maxGapSize
      ensures this.rangeGroups == rangeGroups && stream == null
      ensures earlier == store.requests && reports == []
    {
      this.store := store;
      this.itemRanges := itemRanges;
      this.maxGapSize := maxGapSize;
      this.rangeGroups := rangeGroups;
      this.groupStartToGroup := groupStartToGroup;
      stream, streamPosition, leftover := null, -1, None;
      nextItem, currentItem := 1, itemRanges[0];
      currentItemBuffer := null;
      position, closed, reports := 0, false, [];
      index, group := 0, 0;
      earlier := store.requests;
      GroupBounds(itemRanges, maxGapSize);
    }

    /** `__init__`: drops empty ranges, validates and coalesces the others. */
    static method Create(store: ObjectStore, bucket: string, key: string, itemRanges: seq<ItemRange>,
                         maxGapSize: GapLimit)
      returns (r: Result<DCPOptimizedS3Reader>)
      requires store.Valid()
      ensures r.Ok? <==> && bucket != "" && key != "" && (maxGapSize.Unlimited? || maxGapSize.n >= 0)
                         && Servable(itemRanges)
      ensures r.Ok? ==> && fresh(r.value) && r.value.Valid() && r.value.State() == FRESH
                        && r.value.stream == null && r.value.store == store && r.value.itemRanges == NonEmpty(itemRanges)
                        && r.value.maxGapSize == maxGapSize
                        && r.value.rangeGroups == Groups(NonEmpty(itemRanges), maxGapSize)
                        && r.value.earlier == store.requests && r.value.reports == []
    {
      if bucket == "" || key == "" || itemRanges == [] || !NonNegative(maxGapSize) {
        return Err(ValueError);
      }
      var kept := NonEmpty(itemRanges);
      if kept == [] {
        return Err(ValueError);
      }
      var groups, table := ValidateAndCoalesceRanges(kept, maxGapSize);
      FilteredValidates(itemRanges);
      if groups.Err? {
        return Err(groups.error);
      }
      var reader := new DCPOptimizedS3Reader(store, kept, maxGapSize, groups.value, table);
      return Ok(reader);
    }

    // ---------- loading an item ----------

    method RecordBytesFetched(byteCount: nat)
      modifies this`reports
      ensures reports == old(reports) + if byteCount > 0 then [byteCount] else []
      ensures Sum(reports) == old(Sum(reports)) + byteCount
    {
      if byteCount > 0 {
        SumAppend(reports, byteCount);
        reports := reports + [byteCount];
      }
    }

    /** Takes what is needed from a chunk that starts at `pos`, and keeps the rest as the new leftover. */
    method TakeChunk(buffer: ItemViewBuffer, item: ItemRange, chunk: Bytes, pos: int, bytesLeft: int, ghost offset: nat)
      returns (pos': int, leftover': Option<Bytes>, bytesLeft': int)
      requires buffer.Valid() && 0 <= item.start < item.end
      requires pos == item.start + |buffer.Contents()| && bytesLeft == item.end - pos > 0
      requires pos + |chunk| == offset <= |Content()| && chunk == Content()[pos..offset]
      requires buffer.Contents() == Content()[item.start..pos]
      modifies buffer
      ensures buffer.Valid()
      ensures Loading(Content(), item, pos', leftover', offset, buffer.Contents(), bytesLeft') && pos' >= item.start
    {
      hide ItemViewBuffer.Valid, ItemViewBuffer.Contents;
      var content := store.content;
      if |chunk| <= bytesLeft {
        buffer.AppendView(chunk);
        assert buffer.Contents() == content[item.start..offset];
        return pos + |chunk|, None, bytesLeft - |chunk|;
      } else {
        buffer.AppendView(chunk[..bytesLeft]);
        assert buffer.Contents() == content[item.start..item.end];
        return pos + bytesLeft, Some(chunk[bytesLeft..]), 0;
      }
    }

    /** Phase 1: the item may start inside the leftover, or lie behind it. */
    method TakeLeftover(buffer: ItemViewBuffer, item: ItemRange, pos: int, leftover: Option<Bytes>, ghost offset: nat)
      returns (pos': int, leftover': Option<Bytes>, bytesLeft: int)
      requires buffer.Valid() && buffer.Contents() == []
      requires 0 <= item.start < item.end && pos <= item.start
      requires TailAt(Content(), pos, leftover, offset)
      modifies buffer
      ensures buffer.Valid()
      ensures Loading(Content(), item, pos', leftover', offset, buffer.Contents(), bytesLeft)
    {
      hide ItemViewBuffer.Valid, ItemViewBuffer.Contents;
      pos', leftover', bytesLeft := pos, leftover, item.end - item.start;
      if leftover.Some? && |leftover.value| > 0 {
        var leftoverLen := |leftover.value|;
        var leftoverEndPos := pos + leftoverLen;
        if pos <= item.start < leftoverEndPos {
          var startInLeftover := item.start - pos;
          var availableBytes := leftoverLen - startInLeftover;
          var bytesToExtract := Min(bytesLeft, availableBytes);
          var endInLeftover := startInLeftover + bytesToExtract;
          SliceOfSlice(Content(), pos, offset, startInLeftover, endInLeftover);
          SliceOfSlice(Content(), pos, offset, endInLeftover, leftoverLen);
          buffer.AppendView(leftover.value[startInLeftover..endInLeftover]);
          bytesLeft := bytesLeft - bytesToExtract;
          pos' := item.start + bytesToExtract;
          leftover' := if endInLeftover < leftoverLen then Some(leftover.value[endInLeftover..]) else None;
        } else {
          pos' := pos + leftoverLen;
          leftover' := None;
        }
      }
    }

    /** Phase 2: skip gap bytes until a chunk reaches the item. */
    method SkipGap(stream: GetObjectStream, buffer: ItemViewBuffer, item: ItemRange, pos: int,
                   leftover: Option<Bytes>, bytesLeft: int)
      returns (r: Result<(int, Option<Bytes>, int)>)
      requires stream.Valid() && stream.content == Content() && buffer.Valid()
      requires stream.lastStart < item.end
      requires Loading(Content(), item, pos, leftover, stream.offset, buffer.Contents(), bytesLeft)
      modifies this`reports, stream, buffer
      ensures stream.Valid() && buffer.Valid()
      ensures Sum(reports) - old(Sum(reports)) == stream.offset - old(stream.offset)
      ensures old(stream.Orderly()) ==> stream.Orderly()
      ensures stream.lastStart < item.end && (r.Ok? && old(stream.OnTrack()) ==> stream.OnTrack())
      ensures r.Ok? ==> Loading(Content(), item, r.value.0, r.value.1, stream.offset, buffer.Contents(), r.value.2)
                        && r.value.0 >= item.start
      ensures r.Err? && old(stream.Orderly()) ==> stream.limit < item.end
    {
      hide Sum, GetObjectStream.Valid, GetObjectStream.Orderly, GetObjectStream.OnTrack, GetObjectStream.Uncut;
      hide ItemViewBuffer.Valid, ItemViewBuffer.Contents;
      ghost var onTrack, orderly := stream.OnTrack(), stream.Orderly();
      var pos', leftover', bytesLeft' := pos, leftover, bytesLeft;
      while pos' < item.start
        invariant stream.Valid() && buffer.Valid()
        invariant Loading(Content(), item, pos', leftover', stream.offset, buffer.Contents(), bytesLeft')
        invariant Sum(reports) - old(Sum(reports)) == stream.offset - old(stream.offset)
        invariant orderly ==> stream.Orderly()
        invariant stream.lastStart < item.end && (onTrack ==> stream.OnTrack())
        decreases |stream.nextParts|
      {
        var delivery := stream.Next();
        match delivery {
          case Exhausted => return Err(ValueError);
          case OutOfOrder => return Err(S3Exception);
          case Chunk(data) =>
            RecordBytesFetched(|data|);
            if pos' + |data| <= item.start {
              pos' := pos' + |data|;
            } else {
              var chunk := data[item.start - pos'..];
              pos', leftover', bytesLeft' := TakeChunk(buffer, item, chunk, item.start, bytesLeft', stream.offset);
            }
        }
      }
      return Ok((pos', leftover', bytesLeft'));
    }

    /** Phase 3: fetch the rest of the item. */
    method FetchRest(stream: GetObjectStream, buffer: ItemViewBuffer, item: ItemRange, pos: int,
                     leftover: Option<Bytes>, bytesLeft: int)
      returns (r: Result<(int, Option<Bytes>)>)
      requires stream.Valid() && stream.content == Content() && buffer.Valid()
      requires stream.lastStart < item.end
      requires Loading(Content(), item, pos, leftover, stream.offset, buffer.Contents(), bytesLeft)
      requires pos >= item.start
      modifies this`reports, stream, buffer
      ensures stream.Valid() && buffer.Valid()
      ensures Sum(reports) - old(Sum(reports)) == stream.offset - old(stream.offset)
      ensures old(stream.Orderly()) ==> stream.Orderly()
      ensures stream.lastStart < item.end && (r.Ok? && old(stream.OnTrack()) ==> stream.OnTrack())
      ensures r.Ok? ==> Loading(Content(), item, r.value.0, r.value.1, stream.offset, buffer.Contents(), 0)
      ensures r.Err? && old(stream.Orderly()) ==> stream.limit < item.end
    {
      hide Sum, GetObjectStream.Valid, GetObjectStream.Orderly, GetObjectStream.OnTrack, GetObjectStream.Uncut;
      hide ItemViewBuffer.Valid, ItemViewBuffer.Contents;
      ghost var onTrack, orderly := stream.OnTrack(), stream.Orderly();
      var pos', leftover', bytesLeft' := pos, leftover, bytesLeft;
      while bytesLeft' > 0
        invariant stream.Valid() && buffer.Valid()
        invariant Loading(Content(), item, pos', leftover', stream.offset, buffer.Contents(), bytesLeft')
        invariant pos' >= item.start
        invariant Sum(reports) - old(Sum(reports)) == stream.offset - old(stream.offset)
        invariant orderly ==> stream.Orderly()
        invariant stream.lastStart < item.end && (onTrack ==> stream.OnTrack())
        decreases |stream.nextParts|
      {
        var delivery := stream.Next();
        match delivery {
          case Exhausted => return Err(ValueError);
          case OutOfOrder => return Err(S3Exception);
          case Chunk(data) =>
            RecordBytesFetched(|data|);
            pos', leftover', bytesLeft' := TakeChunk(buffer, item, data, pos', bytesLeft', stream.offset);
        }
      }
      return Ok((pos', leftover'));
    }

    /** Nothing was loaded yet, or the item before `i` was. */
    ghost predicate ReadyFor(i: nat)
      reads this, store, stream
    {
      && Layout() && i < |itemRanges|
      && (stream == null && !closed ==> i == 0 && Sum(reports) == 0 && store.requests == earlier)
      && (stream != null ==>
            && 0 < i && StreamInGroup()
            && group == GroupIndex(itemRanges, maxGapSize, i - 1)
            && streamPosition == itemRanges[i - 1].end)
    }

    /** When the next item opens a group, the old stream was read to its very end. */
    lemma FinishedGroup(i: nat)
      requires ReadyFor(i) && !closed && StartsGroup(itemRanges, maxGapSize, i)
      ensures stream == null ==> GroupIndex(itemRanges, maxGapSize, i) == 0
      ensures stream != null ==> Sum(reports) == TotalWidth(rangeGroups[..group + 1])
    {
      hide Groups, TotalWidth, Opened, StartsGroup, IsStartTable, ObjectStore.Valid, GetObjectStream.Orderly;
      hide GetObjectStream.OnTrack;
      if stream != null {
        OneMoreGroup(rangeGroups, group);
        ItemWithinGroup(itemRanges, maxGapSize, i - 1);
      }
    }

    /** The start table tells whether item `i` opens a group; if not, the open stream is the one it needs. */
    lemma LookupNext(i: nat)
      requires ReadyFor(i)
      ensures itemRanges[i].start in groupStartToGroup <==> StartsGroup(itemRanges, maxGapSize, i)
      ensures stream != null && !StartsGroup(itemRanges, maxGapSize, i) ==>
                StreamInGroup() && group == GroupIndex(itemRanges, maxGapSize, i) && streamPosition <= itemRanges[i].start
    {
      hide StreamInGroup, Groups, StartsGroup;
      StartLookup(itemRanges, maxGapSize, groupStartToGroup, i);
    }

    /** What `OpenStream` needs, when item `i` opens a group. */
    lemma ReadyToOpen(i: nat)
      requires ReadyFor(i) && StartsGroup(itemRanges, maxGapSize, i)
      ensures var g := GroupIndex(itemRanges, maxGapSize, i);
              && store.Valid() && g < |rangeGroups|
              && itemRanges[i].start in groupStartToGroup && groupStartToGroup[itemRanges[i].start] == rangeGroups[g]
              && 0 <= rangeGroups[g].start == itemRanges[i].start < rangeGroups[g].end
              && (!closed ==>
                    && store.requests == earlier + Opened(rangeGroups[..g])
                    && Sum(reports) == TotalWidth(rangeGroups[..g]))
    {
      hide Groups, StartsGroup, Acceptable, ObjectStore.Valid, GetObjectStream.Valid, GetObjectStream.Orderly;
      hide GetObjectStream.OnTrack;
      StartLookup(itemRanges, maxGapSize, groupStartToGroup, i);
      var g := GroupIndex(itemRanges, maxGapSize, i);
      assert rangeGroups[g] in rangeGroups && rangeGroups[..0] == [];
      if !closed { FinishedGroup(i); }
    }

    /** `_StreamState(stream=get_stream(group.start, group.end), stream_position=group.start, leftover=None)`. */
    method OpenStream(rangeGroup: RangeGroup, ghost g: nat)
      requires store.Valid() && g < |rangeGroups| && rangeGroup == rangeGroups[g] && 0 <= rangeGroup.start < rangeGroup.end
      requires !closed ==> store.requests == earlier + Opened(rangeGroups[..g])
      requires !closed ==> Sum(reports) == TotalWidth(rangeGroups[..g])
      modifies this`stream, this`streamPosition, this`leftover, this`group, store`requests
      ensures StreamInGroup() && fresh(stream) && group == g && streamPosition == rangeGroup.start
    {
      OneMoreGroup(rangeGroups, g);
      stream := store.GetStream(Bounded(rangeGroup.start, rangeGroup.end));
      streamPosition := rangeGroup.start;
      leftover := None;
      group := g;
    }

    /** Opens the group's stream for its first item, and keeps the open stream for every other item. */
    method GetStreamForItem(item: ItemRange, ghost i: nat) returns (r: Result<GetObjectStream>)
      requires ReadyFor(i) && item == itemRanges[i]
      modifies this`stream, this`streamPosition, this`leftover, this`group, store`requests
      ensures r.Ok? <==> StartsGroup(itemRanges, maxGapSize, i) || old(stream) != null
      ensures r.Ok? ==> && r.value == stream && StreamInGroup()
                        && group == GroupIndex(itemRanges, maxGapSize, i) && streamPosition <= item.start
                        && (fresh(stream) || stream == old(stream))
      ensures r.Err? ==> stream == null && store.requests == old(store.requests)
    {
      hide Layout, StreamInGroup, StartsGroup, GroupIndex, TotalWidth, Opened, ObjectStore.Valid;
      LookupNext(i);
      if item.start in groupStartToGroup {
        ReadyToOpen(i);
        OpenStream(groupStartToGroup[item.start], GroupIndex(itemRanges, maxGapSize, i));
        return Ok(stream);
      }
      if stream == null {
        return Err(AssertionError);
      }
      return Ok(stream);
    }

    /** What has been fetched never exceeds the announced total. */
    lemma FetchedWithinTotal(offset: nat)
      requires Layout() && group < |rangeGroups| && offset <= rangeGroups[group].end
      requires Sum(reports) == TotalWidth(rangeGroups[..group]) + offset - rangeGroups[group].start
      ensures Sum(reports) <= TotalWidth(rangeGroups)
    {
      OneMoreGroup(rangeGroups, group);
      PrefixWidth(rangeGroups, group + 1);
    }

    /** The three phases of loading an item, on an open stream. */
    method FetchItem(stream: GetObjectStream, item: ItemRange, pos: int, leftover: Option<Bytes>)
      returns (r: Result<ItemViewBuffer>, pos': int, leftover': Option<Bytes>)
      requires stream.Valid() && stream.content == Content()
      requires 0 <= item.start < item.end && pos <= item.start
      requires stream.lastStart < item.end
      requires TailAt(Content(), pos, leftover, stream.offset)
      modifies this`reports, stream
      ensures stream.Valid() && Sum(reports) - old(Sum(reports)) == stream.offset - old(stream.offset)
      ensures old(stream.Orderly()) ==> stream.Orderly()
      ensures stream.lastStart < item.end && (r.Ok? && old(stream.OnTrack()) ==> stream.OnTrack())
      ensures r.Ok? ==> && fresh(r.value) && r.value.Valid() && item.end <= |Content()|
                        && r.value.Contents() == Content()[item.start..item.end]
                        && pos' == item.end && TailAt(Content(), pos', leftover', stream.offset)
      ensures r.Err? && old(stream.Orderly()) ==> stream.limit < item.end
    {
      hide GetObjectStream.Valid, GetObjectStream.Orderly, GetObjectStream.OnTrack, GetObjectStream.Uncut;
      hide ItemViewBuffer.Valid, ItemViewBuffer.Contents;
      var buffer := new ItemViewBuffer();
      var at, rest, bytesLeft := TakeLeftover(buffer, item, pos, leftover, stream.offset);
      var skipped := SkipGap(stream, buffer, item, at, rest, bytesLeft);
      if skipped.Err? {
        return Err(skipped.error), pos, leftover;
      }
      var done := FetchRest(stream, buffer, item, skipped.value.0, skipped.value.1, skipped.value.2);
      if done.Err? {
        return Err(done.error), pos, leftover;
      }
      return Ok(buffer), done.value.0, done.value.1;
    }

    /** Loads one item from the open stream of its group. */
    method LoadFromGroup(stream: GetObjectStream, item: ItemRange) returns (r: Result<ItemViewBuffer>)
      requires this.stream == stream && StreamInGroup() && streamPosition <= item.start
      requires rangeGroups[group].start <= item.start < item.end <= rangeGroups[group].end
      modifies this`streamPosition, this`leftover, this`reports, stream
      ensures stream.Valid() && stream.offset <= rangeGroups[group].end
      ensures Sum(reports) - old(Sum(reports)) == stream.offset - old(stream.offset)
      ensures r.Ok? ==> && StreamInGroup() && streamPosition == item.end <= |Content()|
                        && fresh(r.value) && r.value.Valid()
                        && r.value.Contents() == Content()[item.start..item.end]
      ensures store.Orderly() && r.Err? ==> |Content()| < item.end
    {
      hide GetObjectStream.Orderly, GetObjectStream.OnTrack, GetObjectStream.Uncut, ItemViewBuffer.Valid;
      hide ItemViewBuffer.Contents, Sum, TotalWidth, Opened;
      var pos', leftover';
      r, pos', leftover' := FetchItem(stream, item, streamPosition, leftover);
      if r.Ok? {
        streamPosition := pos';
        leftover := leftover';
      }
    }

    /** Loads one item, opening its group's stream when it is the group's first. */
    method GetItemBuffer(item: ItemRange, ghost i: nat) returns (r: Result<ItemViewBuffer>)
      requires ReadyFor(i) && item == itemRanges[i]
      modifies this`stream, this`streamPosition, this`leftover, this`group, this`reports, store`requests, stream
      ensures r.Ok? ==> && stream != null && StreamInGroup() && group == GroupIndex(itemRanges, maxGapSize, i)
                        && streamPosition == item.end <= |Content()|
                        && fresh(r.value) && r.value.Valid()
                        && r.value.Contents() == Content()[item.start..item.end]
                        && (fresh(stream) || stream == old(stream))
                        && (StartsGroup(itemRanges, maxGapSize, i) || old(stream) != null)
      ensures store.Orderly() && r.Err? ==>
                |Content()| < item.end || (old(stream) == null && !StartsGroup(itemRanges, maxGapSize, i))
      ensures !closed ==> Sum(reports) <= TotalWidth(rangeGroups)
    {
      hide Groups, Sum, Acceptable, IsStartTable, Opened, Payloads, Flatten, GetObjectStream.OnTrack;
      hide GetObjectStream.Orderly;
      var source := GetStreamForItem(item, i);
      if source.Err? {
        PrefixWidth(rangeGroups, 0);
        assert rangeGroups[..0] == [];
        return Err(source.error);
      }
      assert rangeGroups[group].start <= item.start < item.end <= rangeGroups[group].end by {
        ItemBounds(i);
        ItemWithinGroup(itemRanges, maxGapSize, i);
      }
      r := LoadFromGroup(source.value, item);
      assert !closed ==> Sum(reports) <= TotalWidth(rangeGroups) by {
        if !closed { FetchedWithinTotal(source.value.offset); }
      }
    }

    // ---------- the file interface ----------

    /** Advances the iterator at most once, and only from a loaded item. */
    method FindItemForRange(start: int, end: int) returns (r: Result<ItemRange>)
      requires Valid()
      modifies this`nextItem
      ensures var found := FindItem(itemRanges, State(), start, end);
              && (r.Ok? <==> found.Some?)
              && (r.Ok? ==> r.value == itemRanges[found.value] && nextItem == found.value + 1)
    {
      hide Layout, StreamInGroup, Sum, GroupIndex;
      if currentItem.start <= start && end <= currentItem.end {
        return Ok(currentItem);
      }
      if start < currentItem.end || currentItemBuffer == null {
        return Err(ValueError);
      }
      if nextItem >= |itemRanges| {
        return Err(ValueError);
      }
      var item := itemRanges[nextItem];
      nextItem := nextItem + 1;
      if item.start <= start && end <= item.end {
        return Ok(item);
      }
      return Err(ValueError);
    }

    /** Loads item `i` into a new buffer and makes it the current one. */
    method LoadItem(item: ItemRange, ghost i: nat) returns (r: Result<()>)
      requires ReadyFor(i) && item == itemRanges[i] && nextItem == i + 1 && position >= 0
      modifies this, store`requests, stream
      ensures r.Ok? ==> && Valid() && index == i && currentItemBuffer != null && fresh(currentItemBuffer)
                        && (fresh(stream) || stream == old(stream))
                        && (StartsGroup(itemRanges, maxGapSize, i) || old(stream) != null)
      ensures position == old(position) && closed == old(closed)
      ensures store.Orderly() && r.Err? ==>
                |Content()| < item.end || (old(stream) == null && !StartsGroup(itemRanges, maxGapSize, i))
      ensures !closed ==> Sum(reports) <= TotalWidth(rangeGroups)
    {
      hide Layout, StreamInGroup, ItemViewBuffer.Valid, ItemViewBuffer.Contents;
      ItemBounds(i);
      currentItem := item;
      var loaded := GetItemBuffer(item, i);
      if loaded.Err? {
        return Err(loaded.error);
      }
      currentItemBuffer := loaded.value;
      index := i;
      return Ok(());
    }

    /** The common front of `read` and `readinto`. */
    method TouchRange(start: int, end: int) returns (r: Result<ItemRange>)
      requires Valid()
      modifies this, store`requests, stream
      ensures r.Ok? ==> var touched := TouchItem(Content(), itemRanges, maxGapSize, old(State()), start, end);
                        && Valid() && touched == Some(index) && r.value == currentItem
                        && 0 <= currentItem.start <= start && end <= currentItem.end <= |Content()|
                        && currentItemBuffer != null
                        && (fresh(currentItemBuffer) || currentItemBuffer == old(currentItemBuffer))
                        && (fresh(stream) || stream == old(stream))
      ensures position == old(position) && closed == old(closed)
      ensures store.Orderly() && r.Err? ==>
                TouchItem(Content(), itemRanges, maxGapSize, old(State()), start, end).None?
      ensures !closed ==> Sum(reports) <= TotalWidth(rangeGroups)
    {
      hide Layout, StreamInGroup, Sum, TotalWidth, GroupIndex;
      assert !closed ==> Sum(reports) <= TotalWidth(rangeGroups) by { WithinTotal(); }
      var found := FindItemForRange(start, end);
      if found.Err? {
        return found;
      }
      NextItemDiffers();
      if found.value != currentItem || currentItemBuffer == null {
        ghost var i := FindItem(itemRanges, old(State()), start, end).value;
        var loaded := LoadItem(found.value, i);
        if loaded.Err? {
          return Err(loaded.error);
        }
      }
      return found;
    }

    /** Comparing items by value is as good as the source's comparison by identity. */
    lemma NextItemDiffers()
      requires Layout()
      ensures forall i :: 0 < i < |itemRanges| ==> itemRanges[i] != itemRanges[i - 1]
    {
      forall i | 0 < i < |itemRanges| ensures itemRanges[i] != itemRanges[i - 1] {
        StartsDiffer(itemRanges, i - 1, i);
      }
    }

    lemma ItemBounds(i: nat)
      requires Layout() && i < |itemRanges|
      ensures 0 <= itemRanges[i].start < itemRanges[i].end
    {
    }

    lemma WithinTotal()
      requires Valid()
      ensures !closed ==> Sum(reports) <= TotalWidth(rangeGroups)
    {
      if !closed && currentItemBuffer == null {
        PrefixWidth(rangeGroups, 0);
        assert rangeGroups[..0] == [];
      } else if !closed {
        FetchedWithinTotal(stream.offset);
      }
    }

    /** What the invariant says about the stream of a loaded item. */
    lemma LoadedStream()
      requires Valid() && !closed && currentItemBuffer != null
      ensures stream != null && stream.OnTrack() && index < |itemRanges|
      ensures group < |rangeGroups| && group == GroupIndex(itemRanges, maxGapSize, index)
      ensures stream.parts == store.answers(|earlier| + group, GroupRequest(rangeGroups[group]))
      ensures stream.start == rangeGroups[group].start
      ensures stream.lastStart < streamPosition || stream.lastStart == stream.start
      ensures streamPosition == itemRanges[index].end <= stream.offset
      ensures Sum(reports) == TotalWidth(rangeGroups[..group]) + stream.offset - stream.start
    {
      hide Layout, TotalWidth, GroupIndex, Sum, Opened;
      hide GetObjectStream.Valid, GetObjectStream.OnTrack, GetObjectStream.Orderly, ItemViewBuffer.Valid, ItemViewBuffer.Contents;
    }

    /** A loaded item lies in the group its stream serves. */
    lemma LoadedGroup()
      requires Valid() && currentItemBuffer != null
      ensures index < |itemRanges| && group < |rangeGroups|
      ensures 0 <= rangeGroups[group].start <= itemRanges[index].start < itemRanges[index].end
    {
      hide TotalWidth, GroupIndex, Sum, Opened, Groups, IsStartTable;
      hide GetObjectStream.Valid, GetObjectStream.OnTrack, GetObjectStream.Orderly, ObjectStore.Valid;
      hide ItemViewBuffer.Valid, ItemViewBuffer.Contents;
      ItemWithinGroup(itemRanges, maxGapSize, index);
    }

    /** The stream of a loaded item delivered the fewest chunks of its response that reach the item's end. */
    lemma TookFewest()
      requires Valid() && !closed && currentItemBuffer != null
      ensures stream != null && index < |itemRanges|
      ensures group < |rangeGroups| && group == GroupIndex(itemRanges, maxGapSize, index)
      ensures rangeGroups[group].start <= itemRanges[index].end
      ensures var chunks := Payloads(store.answers(|earlier| + group, GroupRequest(rangeGroups[group])));
              && IsFewest(chunks, itemRanges[index].end - rangeGroups[group].start, stream.taken)
              && Sum(reports) == TotalWidth(rangeGroups[..group]) + |Flatten(chunks[..stream.taken])|
    {
      hide Valid, TotalWidth, IsFewest, Payloads, Flatten, GroupIndex, Sum;
      hide GetObjectStream.OnTrack, ObjectStore.Valid;
      LoadedStream();
      LoadedGroup();
      stream.TookFewest(itemRanges[index].end);
      stream.DeliveredSoFar();
    }

    ghost function Step(op: DcpOp): Option<(DcpState, Answer)>
      requires Valid()
      reads this, store, stream, currentItemBuffer
    {
      DcpStep(Content(), itemRanges, maxGapSize, State(), op)
    }

    /** Serves a read that lies inside the loaded item. */
    method ReadLoaded(n: nat) returns (r: Result<Bytes>)
      requires Valid() && currentItemBuffer != null
      requires currentItem.start <= position && position + n <= currentItem.end
      modifies this`position, currentItemBuffer
      ensures Valid() && State() == old(State()).(position := old(position) + n)
      ensures r == Ok(Content()[old(position)..old(position) + n])
    {
      hide Layout, StreamInGroup, GroupIndex, ItemViewBuffer.Valid, ItemViewBuffer.Contents;
      BytesAtSlice(Content(), currentItem.start, currentItem.end, position, n);
      var _ := currentItemBuffer.Seek(position - currentItem.start, Set);
      r := currentItemBuffer.Read(Some(n));
      position := position + |r.value|;
    }

    /** Fills `dest` from the loaded item. */
    method ReadIntoLoaded(dest: array<byte>) returns (n: nat)
      requires Valid() && currentItemBuffer != null
      requires currentItem.start <= position && position + dest.Length <= currentItem.end
      modifies this`position, currentItemBuffer, dest
      ensures Valid() && State() == old(State()).(position := old(position) + n)
      ensures n == dest.Length && dest[..] == Content()[old(position)..old(position) + n]
    {
      hide Layout, StreamInGroup, GroupIndex, ItemViewBuffer.Valid, ItemViewBuffer.Contents;
      BytesAtSlice(Content(), currentItem.start, currentItem.end, position, dest.Length);
      var _ := currentItemBuffer.Seek(position - currentItem.start, Set);
      n := currentItemBuffer.ReadInto(dest);
      assert dest[..n] == dest[..];
      position := position + n;
    }

    method Read(size: Option<int>) returns (r: Result<Bytes>)
      requires Valid()
      modifies this, store`requests, stream, currentItemBuffer
      ensures r.Ok? ==> Valid() && old(Step(Io(ReaderOp.Read(size)))) == Some((State(), Data(r.value)))
      ensures store.Orderly() && r.Err? ==> old(Step(Io(ReaderOp.Read(size)))).None?
      ensures closed == old(closed) && (!closed ==> Sum(reports) <= TotalWidth(rangeGroups))
      ensures r.Ok? ==> stream == null || fresh(stream) || stream == old(stream)
      ensures r.Ok? ==> currentItemBuffer == null || fresh(currentItemBuffer) || currentItemBuffer == old(currentItemBuffer)
    {
      hide Layout, StreamInGroup;
      WithinTotal();
      if size.None? || size.value < 0 {
        return Err(ValueError);
      }
      if size.value == 0 {
        return Ok([]);
      }
      var item := TouchRange(position, position + size.value);
      if item.Err? {
        return Err(item.error);
      }
      r := ReadLoaded(size.value);
    }

    method ReadInto(dest: array<byte>) returns (r: Result<nat>)
      requires Valid()
      modifies this, store`requests, stream, currentItemBuffer, dest
      ensures r.Ok? ==> && Valid()
                        && old(Step(Io(ReaderOp.ReadInto(dest[..])))) == Some((State(), Filled(r.value, dest[..])))
      ensures store.Orderly() && r.Err? ==> old(Step(Io(ReaderOp.ReadInto(dest[..])))).None?
      ensures closed == old(closed) && (!closed ==> Sum(reports) <= TotalWidth(rangeGroups))
      ensures r.Ok? ==> stream == null || fresh(stream) || stream == old(stream)
      ensures r.Ok? ==> currentItemBuffer == null || fresh(currentItemBuffer) || currentItemBuffer == old(currentItemBuffer)
    {
      hide Layout, StreamInGroup;
      WithinTotal();
      var item := TouchRange(position, position + dest.Length);
      if item.Err? {
        return Err(item.error);
      }
      var n := ReadIntoLoaded(dest);
      return Ok(n);
    }

    /** The target is stored before it is checked, so a rejected seek leaves a negative position behind. */
    method Seek(offset: int, whence: Whence) returns (r: Result<nat>)
      requires Valid()
      modifies this`position
      ensures r.Ok? <==> old(Step(Io(ReaderOp.Seek(offset, whence)))).Some?
      ensures r.Ok? ==> Valid() && old(Step(Io(ReaderOp.Seek(offset, whence)))) == Some((State(), Position(r.value)))
    {
      hide Layout, StreamInGroup;
      if whence.Set? {
        position := offset;
      } else if whence.Cur? {
        position := position + offset;
      } else {
        return Err(ValueError);
      }
      if position < 0 {
        return Err(ValueError);
      }
      return Ok(position);
    }

    method Tell() returns (p: nat)
      requires Valid()
      ensures Step(Io(ReaderOp.Tell)) == Some((State(), Position(p)))
    {
      hide Layout, StreamInGroup;
      p := position;
    }

    method Close()
      requires Valid()
      modifies this`closed, this`stream, this`leftover, this`currentItemBuffer
      ensures Valid() && old(Step(DcpOp.Close)) == Some((State(), Nothing))
      ensures old(closed) ==> stream == old(stream) && currentItemBuffer == old(currentItemBuffer)
      ensures !old(closed) ==> stream == null && currentItemBuffer == null
    {
      hide Layout;
      if !closed {
        closed := true;
        stream := null;
        leftover := None;
        currentItemBuffer := null;
      }
    }
  }
}
