/**
  The ranged reader (ranged.py, `RangedS3Reader`): byte-range requests, with a reusable buffer for
  small reads and a direct path for large ones.
 */
module RangedReaders {
  import opened Results
  import opened ByteStreams
  import opened FileSpec

  // ---------- specification ----------

  /** The position, and the byte range held in the buffer. */
  datatype RangedState = RangedState(position: nat, bufferStart: nat, bufferEnd: nat)

  const UNTOUCHED := RangedState(0, 0, 0)

  ghost predicate Sound(content: Bytes, st: RangedState) {
    st.position <= |content| && st.bufferStart <= st.bufferEnd <= |content|
  }

  /** Where the part of `[start, end)` begins that the buffered overlap does not serve. */
  function Remaining(st: RangedState, start: nat, end: nat): nat {
    if st.bufferStart <= start < st.bufferEnd <= end then st.bufferEnd else start
  }

  /** The buffered range after serving the remaining part, and the request it took, if any. */
  function Serve(size: nat, bufferSize: int, st: RangedState, start: nat, end: nat): (RangedState, seq<Request>)
    requires start <= end
  {
    if end - start >= bufferSize || bufferSize <= 0 then (st, [Bounded(start, end)])
    else if start < st.bufferStart || end > st.bufferEnd then
      var loadEnd := Min(start + bufferSize, size);
      (st.(bufferStart := start, bufferEnd := loadEnd), [Bounded(start, loadEnd)])
    else (st, [])
  }

  function RangedRead(content: Bytes, bufferSize: int, st: RangedState, n: nat): (RangedState, seq<Request>)
    requires Sound(content, st)
  {
    var end := Min(st.position + n, |content|);
    if st.position >= end then (st, [])
    else
      var (st', requests) := Serve(|content|, bufferSize, st, Remaining(st, st.position, end), end);
      (st'.(position := end), requests)
  }

  /** How many bytes a read may return at most. */
  function Wanted(content: Bytes, st: RangedState, size: Option<int>): nat
    requires Sound(content, st)
  {
    if size.None? || size.value < 0 then |content| - st.position else size.value
  }

  function RangedStep(content: Bytes, bufferSize: int, st: RangedState, op: ReaderOp): (RangedState, Answer,
    seq<Request>)
    requires Sound(content, st)
  {
    match op
    case Tell => (st, Position(st.position), [])
    case Read(size) =>
      var n := Wanted(content, st, size);
      var (st', requests) := RangedRead(content, bufferSize, st, n);
      (st', Data(BytesAt(content, st.position, n)), requests)
    case ReadInto(dest) =>
      var (st', requests) := RangedRead(content, bufferSize, st, |dest|);
      var data := BytesAt(content, st.position, |dest|);
      (st', Filled(|data|, Overlay(dest, data)), requests)
    case Seek(offset, whence) =>
      var target := SeekOrigin(content, st.position, whence) + offset;
      if whence.Other? || target < 0 then (st, Rejected, [])
      else (st.(position := Min(target, |content|)), Position(Min(target, |content|)), [])
  }

  /** The reader is a plain file, and keeps its buffer inside the object. */
  lemma RangedRefinesFile(content: Bytes, bufferSize: int, st: RangedState, op: ReaderOp)
    requires Sound(content, st)
    ensures var (st', answer, _) := RangedStep(content, bufferSize, st, op);
            Sound(content, st') && FileStep(content, st.position, op) == (st'.position, answer)
  {
    match op {
      case Read(size) =>
        assert BytesAt(content, st.position, |content| - st.position) == content[st.position..];
      case _ =>
    }
  }

  lemma NoOverlay(dest: Bytes)
    ensures Overlay(dest, []) == dest
  {
  }

  // ---------- the reader ----------

  /** The chunk loop of `_load_buffer`: everything the stream delivers goes to the front of `dest`. */
  method FillBuffer(stream: GetObjectStream, dest: array<byte>) returns (r: Result<nat>)
    requires stream.Valid() && stream.Uncut() && stream.offset <= stream.limit <= |stream.content|
    requires stream.limit - stream.offset <= dest.Length
    modifies stream, dest
    ensures r.Err? ==> r.error == S3Exception && !old(stream.Orderly())
    ensures r.Ok? ==>
              && r.value == stream.limit - old(stream.offset)
              && dest[..r.value] == stream.content[old(stream.offset)..stream.limit]
  {
    hide GetObjectStream.Valid, GetObjectStream.Orderly, GetObjectStream.Uncut, GetObjectStream.OnTrack, Splice;
    var bytesRead: nat := 0;
    ghost var start, before, orderly := stream.offset, dest[..], stream.Orderly();
    SpliceNothing(before, 0);
    assert stream.content[start..start] == [];
    while true
      invariant stream.Valid() && stream.Uncut() && (orderly ==> stream.Orderly())
      invariant stream.offset == start + bytesRead <= stream.limit
      invariant dest[..] == Splice(before, 0, stream.content[start..start + bytesRead])
      decreases |stream.nextParts|
    {
      var delivery := stream.Next();
      match delivery {
        case Exhausted => break;
        case OutOfOrder => return Err(S3Exception);
        case Chunk(data) =>
          SliceConcat(stream.content, start, start + bytesRead, stream.offset);
          SpliceTwice(before, 0, stream.content[start..start + bytesRead], data);
          CopySlice(dest, bytesRead, data);
          bytesRead := bytesRead + |data|;
      }
    }
    SpliceFront(before, stream.content[start..start + bytesRead]);
    assert dest[..bytesRead] == dest[..][..bytesRead];
    return Ok(bytesRead);
  }

  /** The chunk loop of `_read_unbuffered`: at most `length` bytes, written behind the first `at` bytes of `dest`. */
  method CopyToView(stream: GetObjectStream, dest: array<byte>, at: nat, length: nat) returns (r: Result<nat>)
    requires stream.Valid() && stream.Uncut() && stream.limit == stream.offset + length <= |stream.content|
    requires at + length <= dest.Length
    modifies stream, dest
    ensures r.Err? ==> r.error == S3Exception && !old(stream.Orderly())
    ensures r.Ok? ==>
              && r.value == length
              && dest[..] == Splice(old(dest[..]), at, stream.content[old(stream.offset)..stream.limit])
  {
    hide GetObjectStream.Valid, GetObjectStream.Orderly, GetObjectStream.Uncut, GetObjectStream.OnTrack, Splice;
    var n: nat := 0;
    ghost var start, before, orderly := stream.offset, dest[..], stream.Orderly();
    SpliceNothing(before, at);
    assert stream.content[start..start] == [];
    while true
      invariant stream.Valid() && stream.Uncut() && (orderly ==> stream.Orderly())
      invariant stream.offset == start + n <= stream.limit
      invariant dest[..] == Splice(before, at, stream.content[start..start + n])
      decreases |stream.nextParts|
    {
      var delivery := stream.Next();
      match delivery {
        case Exhausted => break;
        case OutOfOrder => return Err(S3Exception);
        case Chunk(data) =>
          var chunkSize := Min(|data|, length - n);
          assert data[..chunkSize] == data;
          SliceConcat(stream.content, start, start + n, stream.offset);
          SpliceTwice(before, at, stream.content[start..start + n], data);
          CopySlice(dest, at + n, data[..chunkSize]);
          n := n + chunkSize;
          if n == length {
            break;
          }
      }
    }
    return Ok(n);
  }

  lemma SpliceFront(dest: Bytes, data: Bytes)
    requires |data| <= |dest|
    ensures Splice(dest, 0, data)[..|data|] == data
  {
  }

  lemma SpliceNothing(dest: Bytes, at: nat)
    requires at <= |dest|
    ensures Splice(dest, at, []) == dest
  {
  }

  class RangedS3Reader {
    const store: ObjectStore
    const bufferSize: int
    const buffer: array?<byte>  // `None` when buffering is disabled
    var bufferStart: nat
    var bufferEnd: nat
    var size: Option<nat>
    var position: nat

    ghost function Content(): Bytes {
      store.content
    }

    ghost function State(): RangedState
      reads this
    {
      RangedState(position, bufferStart, bufferEnd)
    }

    ghost predicate Valid()
      reads this, buffer
    {
      && store.Valid() && store.Uncut()
      && Sound(Content(), State())
      && (size.Some? ==> size.value == |Content()|)
      && (buffer == null <==> bufferSize <= 0)
      && (buffer == null ==> bufferStart == bufferEnd)
      && (buffer != null ==> buffer.Length == bufferSize && Holds(bufferStart, bufferEnd))
    }

    /** The front of the buffer is the object's range `[start, end)`. */
    ghost predicate Holds(start: nat, end: nat)
      requires buffer != null
      reads buffer
    {
      start <= end <= |Content()| && end - start <= buffer.Length && buffer[..end - start] == Content()[start..end]
    }

    /** `buffer_size` of `None` means 8 MB; zero or less disables the buffer. */
    constructor (store: ObjectStore, bufferSizeArg: Option<int>)
      requires store.Valid() && store.Uncut()
      ensures Valid() && State() == UNTOUCHED && this.store == store
      ensures bufferSize == if bufferSizeArg.None? then 8 * 1024 * 1024 else bufferSizeArg.value
      ensures buffer == null || fresh(buffer)
    {
      this.store := store;
      var n := if bufferSizeArg.None? then 8 * 1024 * 1024 else bufferSizeArg.value;
      bufferSize := n;
      if n > 0 {
        buffer := new byte[n](_ => 0);
      } else {
        buffer := null;
      }
      bufferStart, bufferEnd, size, position := 0, 0, None, 0;
    }

    /** `__init__`: an empty bucket name is rejected, an empty key is not. */
    static method Create(store: ObjectStore, bucket: string, key: string, bufferSize: Option<int>)
      returns (r: Result<RangedS3Reader>)
      requires store.Valid() && store.Uncut()
      ensures r.Ok? <==> bucket != ""
      ensures r.Ok? ==> && fresh(r.value) && r.value.Valid() && r.value.State() == UNTOUCHED && r.value.store == store
                        && r.value.bufferSize == if bufferSize.None? then 8 * 1024 * 1024 else bufferSize.value
    {
      if bucket == "" {
        return Err(ValueError);
      }
      var reader := new RangedS3Reader(store, bufferSize);
      return Ok(reader);
    }

    method GetSize() returns (n: nat)
      requires Valid()
      modifies this`size
      ensures Valid() && n == |Content()|
    {
      if size.None? {
        var objectSize := store.GetObjectSize();
        size := Some(objectSize);
      }
      n := size.value;
    }

    predicate PositionAtEnd()
      reads this`size, this`position
    {
      size.Some? && position == size.value
    }

    /** Fills the buffer from `start` on with one ranged request. */
    method LoadBuffer(start: nat) returns (r: Result<()>)
      requires Valid() && buffer != null && start < |Content()|
      modifies this`bufferStart, this`bufferEnd, this`size, buffer, store`requests
      ensures r.Err? ==> r.error == S3Exception && !store.Orderly()
      ensures r.Ok? ==>
                && Valid() && bufferStart == start && bufferEnd == Min(start + bufferSize, |Content()|)
                && store.requests == old(store.requests) + [Bounded(bufferStart, bufferEnd)]
    {
      hide GetObjectStream.Valid, GetObjectStream.Orderly, GetObjectStream.Uncut, GetObjectStream.OnTrack;
      hide ObjectStore.Valid, ObjectStore.Orderly, ObjectStore.Uncut;
      var n := GetSize();
      var end := Min(start + bufferSize, n);
      var stream := store.GetStream(Bounded(start, end));
      var bytesRead := FillBuffer(stream, buffer);
      if bytesRead.Err? {
        return Err(bytesRead.error);
      }
      bufferStart, bufferEnd := start, start + bytesRead.value;
      return Ok(());
    }

    /** Copies `[start, end)` out of the buffer, loading it first if it does not hold the range. */
    method ReadBuffered(view: array<byte>, at: nat, start: nat, end: nat) returns (r: Result<nat>)
      requires Valid() && buffer != null && view != buffer
      requires start <= end <= |Content()| && end - start <= bufferSize && at + (end - start) <= view.Length
      requires start == end ==> bufferStart <= start <= bufferEnd
      modifies this`bufferStart, this`bufferEnd, this`size, buffer, view, store`requests
      ensures r.Err? ==> r.error == S3Exception && !store.Orderly()
      ensures r.Ok? ==>
                && Valid() && r.value == end - start && position == old(position)
                && view[..] == Splice(old(view[..]), at, Content()[start..end])
      ensures r.Ok? ==>
                var loads := start < old(bufferStart) || end > old(bufferEnd);
                && bufferStart == (if loads then start else old(bufferStart))
                && bufferEnd == (if loads then Min(start + bufferSize, |Content()|) else old(bufferEnd))
                && store.requests == old(store.requests) + if loads then [Bounded(bufferStart, bufferEnd)] else []
    {
      hide ObjectStore.Valid, ObjectStore.Orderly, ObjectStore.Uncut;
      if start < bufferStart || end > bufferEnd {
        var loaded := LoadBuffer(start);
        if loaded.Err? {
          return Err(loaded.error);
        }
      }
      var n := CopyOut(view, at, start, end);
      return Ok(n);
    }

    /** Copies a range that the buffer holds. */
    method CopyOut(view: array<byte>, at: nat, start: nat, end: nat) returns (n: nat)
      requires buffer != null && view != buffer && Holds(bufferStart, bufferEnd)
      requires bufferStart <= start <= end <= bufferEnd && at + (end - start) <= view.Length
      modifies view
      ensures n == end - start
      ensures view[..] == Splice(old(view[..]), at, Content()[start..end])
    {
      var bufferOffset := start - bufferStart;
      n := end - start;
      SliceOfSlice(Content(), bufferStart, bufferEnd, bufferOffset, bufferOffset + n);
      assert buffer[bufferOffset..bufferOffset + n] == buffer[..bufferEnd - bufferStart][bufferOffset..bufferOffset + n];
      CopySlice(view, at, buffer[bufferOffset..bufferOffset + n]);
      assert view[..] == view[..at + n] + view[at + n..];
    }

    /** Copies `[start, end)` straight from one ranged request. */
    method ReadUnbuffered(view: array<byte>, at: nat, start: nat, end: nat) returns (r: Result<nat>)
      requires Valid() && view != buffer
      requires start <= end <= |Content()| && at + (end - start) <= view.Length
      modifies view, store`requests
      ensures r.Err? ==> r.error == S3Exception && !store.Orderly()
      ensures r.Ok? ==>
                && Valid() && r.value == end - start
                && view[..] == Splice(old(view[..]), at, Content()[start..end])
                && store.requests == old(store.requests) + [Bounded(start, end)]
    {
      hide GetObjectStream.Valid, GetObjectStream.Orderly, GetObjectStream.Uncut, GetObjectStream.OnTrack;
      hide ObjectStore.Valid, ObjectStore.Orderly, ObjectStore.Uncut, Splice;
      var stream := store.GetStream(Bounded(start, end));
      r := CopyToView(stream, view, at, end - start);
    }

    /** Large reads bypass the buffer, small ones go through it. */
    method ServeBySize(view: array<byte>, at: nat, start: nat, end: nat) returns (r: Result<nat>)
      requires Valid() && view != buffer && start <= end <= |Content()| && at + (end - start) <= view.Length
      requires start == end ==> bufferStart <= start <= bufferEnd
      modifies this`bufferStart, this`bufferEnd, this`size, buffer, view, store`requests
      ensures r.Err? ==> r.error == S3Exception && !store.Orderly()
      ensures r.Ok? ==>
                && Valid() && r.value == end - start
                && Serve(|Content()|, bufferSize, old(State()), start, end).0 == State()
                && store.requests == old(store.requests) + Serve(|Content()|, bufferSize, old(State()), start, end).1
                && view[..] == Splice(old(view[..]), at, Content()[start..end])
    {
      hide Splice;
      hide ObjectStore.Valid, ObjectStore.Orderly, ObjectStore.Uncut;
      if end - start >= bufferSize || buffer == null {
        r := ReadUnbuffered(view, at, start, end);
      } else {
        r := ReadBuffered(view, at, start, end);
      }
    }

    /** Serves the overlap with the buffer first, then the rest by its size. */
    method ReadRange(view: array<byte>, start: nat, end: nat) returns (r: Result<nat>)
      requires Valid() && view != buffer && start == position < end <= |Content()| && end - start <= view.Length
      modifies this, buffer, view, store`requests
      ensures r.Err? ==> r.error == S3Exception && !store.Orderly()
      ensures r.Ok? ==>
                && Valid() && r.value == end - start
                && view[..] == Splice(old(view[..]), 0, Content()[start..end])
      ensures r.Ok? ==>
                var (st', requests) := Serve(|Content()|, bufferSize, old(State()), Remaining(old(State()), start, end), end);
                State() == st'.(position := end) && store.requests == old(store.requests) + requests
    {
      hide Serve, Splice;
      hide ObjectStore.Valid, ObjectStore.Orderly, ObjectStore.Uncut;
      var bytesRead := 0;
      var from := start;
      if bufferStart <= start < bufferEnd <= end {
        var overlap := ReadBuffered(view, 0, start, bufferEnd);
        if overlap.Err? {
          return overlap;
        }
        from := bufferEnd;
        bytesRead := bytesRead + overlap.value;
      }
      SpliceNothing(view[..], 0);
      SliceConcat(Content(), start, from, end);
      SpliceTwice(old(view[..]), 0, Content()[start..from], Content()[from..end]);
      var n := ServeBySize(view, bytesRead, from, end);
      if n.Err? {
        return n;
      }
      bytesRead := bytesRead + n.value;
      position := position + bytesRead;
      return Ok(bytesRead);
    }

    method Tell() returns (p: nat)
      requires Valid()
      ensures RangedStep(Content(), bufferSize, State(), ReaderOp.Tell) == (State(), Position(p), [])
    {
      p := position;
    }

    method Read(n: Option<int>) returns (r: Result<Bytes>)
      requires Valid()
      modifies this, buffer, store`requests
      ensures r.Err? ==> r.error == S3Exception && !store.Orderly()
      ensures r.Ok? ==> Valid()
      ensures r.Ok? ==>
                var (st', answer, requests) := RangedStep(Content(), bufferSize, old(State()), ReaderOp.Read(n));
                st' == State() && answer == Data(r.value) && store.requests == old(store.requests) + requests
    {
      hide Serve, Remaining;
      hide ObjectStore.Valid, ObjectStore.Orderly, ObjectStore.Uncut;
      if PositionAtEnd() {
        return Ok([]);
      }
      var start := position;
      var objectSize := GetSize();
      var end := if n.None? || n.value < 0 then objectSize else Min(start + n.value, objectSize);
      if start >= end {
        return Ok([]);
      }
      var view := new byte[end - start](_ => 0);
      var bytesRead := ReadRange(view, start, end);
      if bytesRead.Err? {
        return Err(bytesRead.error);
      }
      assert BytesAt(Content(), start, Wanted(Content(), old(State()), n)) == Content()[start..end];
      return Ok(view[..]);
    }

    method ReadInto(dest: array<byte>) returns (r: Result<nat>)
      requires Valid() && dest != buffer
      modifies this, buffer, dest, store`requests
      ensures r.Err? ==> r.error == S3Exception && !store.Orderly()
      ensures r.Ok? ==> Valid()
      ensures r.Ok? ==>
                var op := ReaderOp.ReadInto(old(dest[..]));
                var (st', answer, requests) := RangedStep(Content(), bufferSize, old(State()), op);
                st' == State() && answer == Filled(r.value, dest[..]) && store.requests == old(store.requests) + requests
    {
      hide Serve, Remaining, Splice;
      hide ObjectStore.Valid, ObjectStore.Orderly, ObjectStore.Uncut;
      NoOverlay(dest[..]);
      if PositionAtEnd() || dest.Length == 0 {
        return Ok(0);
      }
      var start := position;
      var objectSize := GetSize();
      var end := Min(start + dest.Length, objectSize);
      if start >= end {
        return Ok(0);
      }
      r := ReadRange(dest, start, end);
      assert BytesAt(Content(), start, dest.Length) == Content()[start..end];
    }

    method Seek(offset: int, whence: Whence) returns (r: Result<nat>)
      requires Valid()
      modifies this`size, this`position
      ensures Valid()
      ensures RangedStep(Content(), bufferSize, old(State()), ReaderOp.Seek(offset, whence)) ==
              (State(), if r.Ok? then Position(r.value) else Rejected, [])
    {
      hide ObjectStore.Valid, ObjectStore.Orderly, ObjectStore.Uncut;
      var target := offset;
      match whence {
        case End =>
          var n := GetSize();
          if offset >= 0 {
            position := n;
            return Ok(position);
          }
          target := offset + n;
        case Cur =>
          if PositionAtEnd() && offset >= 0 {
            return Ok(position);
          }
          target := offset + position;
        case Set =>
        case Other =>
          return Err(ValueError);
      }
      if target < 0 {
        return Err(ValueError);
      }
      var n := GetSize();
      position := Min(target, n);
      return Ok(position);
    }
  }
}
