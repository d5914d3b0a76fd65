/**
  What a DCP reader may do, call by call, without streams, chunks or leftovers.

  The reader only remembers which item it is at, whether that item is loaded, and its position.
  A raised error ends a run (`None`): the source leaves the iterator advanced or the position
  negative after some errors.
 */
module DcpSpec {
  import opened Results
  import opened ByteStreams
  import opened FileSpec
  import opened RangeGroups

  datatype DcpState = DcpState(index: nat, loaded: bool, closed: bool, position: nat)

  datatype DcpOp = Io(op: ReaderOp) | Close

  const FRESH := DcpState(0, false, false, 0)

  predicate Contains(item: ItemRange, start: int, end: int) {
    item.start <= start && end <= item.end
  }

  /** The item that serves `[start, end)`: the current one, or the next one if the current is finished. */
  function FindItem(items: seq<ItemRange>, st: DcpState, start: int, end: int): Option<nat>
    requires st.index < |items|
  {
    if Contains(items[st.index], start, end) then Some(st.index)
    else if start < items[st.index].end || !st.loaded then None
    else if st.index + 1 < |items| && Contains(items[st.index + 1], start, end) then Some(st.index + 1)
    else None
  }

  /** As `FindItem`, and the item's bytes can be had: they exist, and a stream leads to them. */
  function TouchItem(content: Bytes, items: seq<ItemRange>, limit: GapLimit, st: DcpState, start: int,
                     end: int): Option<nat>
    requires st.index < |items|
  {
    var found := FindItem(items, st, start, end);
    if found.None? then None
    else if st.loaded && found.value == st.index then found
    else if !st.loaded && !StartsGroup(items, limit, found.value) then None
    else if |content| < items[found.value].end then None
    else found
  }

  /** One call; a successful read returns the object's own bytes at the position, all that were asked for. */
  function DcpStep(content: Bytes, items: seq<ItemRange>, limit: GapLimit, st: DcpState,
                   op: DcpOp): Option<(DcpState, Answer)>
    requires Acceptable(items) && st.index < |items|
    requires st.loaded ==> items[st.index].end <= |content|
  {
    match op
    case Close => Some((if st.closed then st else st.(closed := true, loaded := false), Nothing))
    case Io(Tell) => Some((st, Position(st.position)))
    case Io(Seek(offset, whence)) =>
      var target := (if whence.Cur? then st.position else 0) + offset;
      if whence.End? || whence.Other? || target < 0 then None
      else Some((st.(position := target), Position(target)))
    case Io(Read(size)) =>
      if size.None? || size.value < 0 then None
      else if size.value == 0 then Some((st, Data([])))
      else
        var item := TouchItem(content, items, limit, st, st.position, st.position + size.value);
        if item.None? then None
        else Some((Arrive(st, item.value, size.value), Data(content[st.position..st.position + size.value])))
    case Io(ReadInto(dest)) =>
      var item := TouchItem(content, items, limit, st, st.position, st.position + |dest|);
      if item.None? then None
      else Some((Arrive(st, item.value, |dest|), Filled(|dest|, content[st.position..st.position + |dest|])))
  }

  function Arrive(st: DcpState, index: nat, n: nat): DcpState {
    st.(index := index, loaded := true, position := st.position + n)
  }

  /** What every state of a run satisfies. */
  ghost predicate Sound(content: Bytes, items: seq<ItemRange>, st: DcpState) {
    && st.index < |items|
    && (st.loaded ==> items[st.index].end <= |content|)
    && (!st.loaded && !st.closed ==> st.index == 0)
  }
}
