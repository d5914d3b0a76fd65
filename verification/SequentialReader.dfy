/**
  The sequential reader (sequential.py, `SequentialS3Reader`): one stream over the whole object, read
  only as far as needed, into one growing buffer.
 */
module SequentialReaders {
  import opened Results
  import opened ByteStreams
  import opened FileSpec

  // ---------- specification ----------

  /**
    `sizeKnown` tells whether the object's size was recorded, `demand` is the largest offset that was
    compared with the buffer, `drained` tells whether a read-to-end emptied the stream, `started` whether
    there is one.  None of them depends on how the response is cut into chunks.
   */
  datatype SeqState = SeqState(position: nat, sizeKnown: bool, demand: nat, drained: bool, started: bool)

  const UNREAD := SeqState(0, false, 0, false, false)

  predicate AtEnd(content: Bytes, st: SeqState) {
    st.sizeKnown && st.position == |content|
  }

  function MoveTo(content: Bytes, st: SeqState, offset: nat): SeqState {
    st.(position := Min(offset, |content|), sizeKnown := st.sizeKnown || offset > |content|,
                                                         demand := Max(st.demand, offset), started := st.started || offset > 0)
  }

  function SeqStep(content: Bytes, st: SeqState, op: ReaderOp): (SeqState, Answer)
    requires st.position <= |content|
  {
    match op
    case Tell => (st, Position(st.position))
    case Read(size) =>
      if AtEnd(content, st) then (st, Data([]))
      else if size.None? || size.value < 0 then
        (st.(position := |content|, sizeKnown := true, drained := true, started := true), Data(content[st.position..]))
      else
        (MoveTo(content, st, st.position + size.value).(started := true), Data(BytesAt(content, st.position, size.value)))
    case ReadInto(dest) =>
      if AtEnd(content, st) || dest == [] then (st, Filled(0, dest))
      else
        var data := BytesAt(content, st.position, |dest|);
        (MoveTo(content, st, st.position + |dest|), Filled(|data|, Overlay(dest, data)))
    case Seek(offset, whence) =>
      if whence.Other? then (st, Rejected)
      else if whence.End? && offset >= 0 then (st.(position := |content|, sizeKnown := true), Position(|content|))
      else if whence.Cur? && AtEnd(content, st) && offset >= 0 then (st, Position(st.position))
      else
        var st' := if whence.End? then st.(sizeKnown := true) else st;
        var target := SeekOrigin(content, st.position, whence) + offset;
        if target < 0 then (st', Rejected) else (MoveTo(content, st', target), Position(Min(target, |content|)))
  }

  /** The reader is a plain file: same answers, same positions, whatever it knows or has buffered. */
  lemma SeqRefinesFile(content: Bytes, st: SeqState, op: ReaderOp)
    requires st.position <= |content|
    ensures var (st', answer) := SeqStep(content, st, op);
            FileStep(content, st.position, op) == (st'.position, answer)
  {
    match op {
      case ReadInto(dest) => assert Overlay(dest, []) == dest;
      case Read(size) => assert AtEnd(content, st) ==> content[st.position..] == [];
      case _ =>
    }
  }

  // ---------- the reader ----------

  class SequentialS3Reader {
    const store: ObjectStore
    var stream: GetObjectStream?
    var buffer: Bytes  // the BytesIO and its cursor
    var cursor: nat
    var size: Option<nat>
    var position: nat
    ghost var chunks: seq<Bytes>  // everything the stream delivers from first to last
    ghost var taken: nat          // how many of them were taken so far
    ghost var demand: nat
    ghost var drained: bool
    ghost const earlier: seq<Request>

    ghost function Content(): Bytes {
      store.content
    }

    ghost function State(): SeqState
      reads this
    {
      SeqState(position, size.Some?, demand, drained, stream != null)
    }

    /** What is buffered, and what the stream still has. */
    ghost predicate Streaming()
      reads this`stream, this`buffer, this`chunks, this`taken, this`size, store, stream
    {
      && store.Valid() && store.Uncut()
      && (size.Some? ==> size.value == |Content()|)
      && taken <= |chunks|
      && buffer == Flatten(chunks[..taken]) && |buffer| <= |Content()| && buffer == Content()[..|buffer|]
      && (stream == null ==> taken == 0 && chunks == [] && store.requests == earlier)
      && (stream != null ==>
            && store.requests == earlier + [Whole] && chunks == Payloads(store.answers(|earlier|, Whole))
            && stream.Valid() && stream.Uncut() && (store.Orderly() ==> stream.Orderly())
            && stream.content == Content()
            && stream.limit == |Content()| && stream.offset == |buffer|
            && Payloads(stream.nextParts) == chunks[taken..])
    }

    ghost predicate Lazy()
      reads this`buffer, this`chunks, this`taken, this`demand, this`drained, this`stream
    {
      && (!drained && stream == null ==> demand == 0)
      && (!drained && stream != null ==> IsFewest(chunks, demand, taken))
      && (drained ==> taken == |chunks| && stream != null)
    }

    ghost predicate Valid()
      reads this, store, stream
    {
      && Streaming() && Lazy()
      && (demand > |buffer| || drained ==> size.Some?)
      && position <= |Content()|
      && (position == cursor <= |buffer| || size == Some(position))
    }

    constructor (store: ObjectStore)
      requires store.Valid() && store.Uncut()
      ensures Valid() && State() == UNREAD && this.store == store && earlier == store.requests && stream == null
    {
      this.store := store;
      stream, buffer, cursor, size, position := null, [], 0, None, 0;
      chunks, taken, demand, drained := [], 0, 0, false;
      earlier := store.requests;
      new;
      assert Flatten(chunks[..taken]) == [];
    }

    /** `__init__`: an empty bucket name is rejected, an empty key is not. */
    static method Create(store: ObjectStore, bucket: string, key: string) returns (r: Result<SequentialS3Reader>)
      requires store.Valid() && store.Uncut()
      ensures r.Ok? <==> bucket != ""
      ensures r.Ok? ==> && fresh(r.value) && r.value.Valid() && r.value.State() == UNREAD && r.value.store == store
                        && r.value.stream == null
    {
      if bucket == "" {
        return Err(ValueError);
      }
      var reader := new SequentialS3Reader(store);
      return Ok(reader);
    }

    /** Opens the stream on first use. */
    method Prefetch()
      requires Valid()
      modifies this`stream, this`chunks, store`requests
      ensures Valid() && stream != null && (fresh(stream) || stream == old(stream))
    {
      if stream == null {
        var s := store.GetStream(Whole);
        stream := s;
        chunks := Payloads(s.nextParts);
        assert chunks[..taken] == [] && chunks[taken..] == chunks;
      }
    }

    /** One `next` on the stream: `true` for a chunk, `false` at the end, or the client's error. */
    method TakeChunk() returns (r: Result<bool>)
      requires Streaming() && stream != null
      modifies this`buffer, this`taken, stream
      ensures r.Err? ==> r.error == S3Exception && !store.Orderly()
      ensures r.Ok? ==>
                && Streaming()
                && (r.value <==> old(taken) < |chunks|)
                && taken == old(taken) + (if r.value then 1 else 0)
      ensures r.Ok? && r.value ==> |buffer| >= old(|buffer|) && stream.nextParts == old(stream.nextParts)[1..]
      ensures r.Ok? && !r.value ==> buffer == old(buffer) == Content()
    {
      hide ObjectStore.Valid, ObjectStore.Orderly, ObjectStore.Uncut;
      hide GetObjectStream.Valid, GetObjectStream.Orderly, GetObjectStream.Uncut, GetObjectStream.OnTrack;
      assert stream.Valid() && stream.Uncut() && (store.Orderly() ==> stream.Orderly());
      var delivery := stream.Next();
      assert |Payloads(old(stream.nextParts))| == |chunks| - taken;
      match delivery {
        case OutOfOrder =>
          return Err(S3Exception);
        case Exhausted =>
          return Ok(false);
        case Chunk(data) =>
          assert data == chunks[taken..][0];
          assert chunks[..taken + 1] == chunks[..taken] + [data];
          FlattenAppend(chunks[..taken], data);
          assert Content()[..stream.offset] == Content()[..|buffer|] + data;
          assert Payloads(stream.nextParts) == chunks[taken + 1..];
          buffer := buffer + data;
          taken := taken + 1;
          return Ok(true);
      }
    }

    /** Opens the stream if need be, and records the new demand. */
    method PrefetchToOffset(offset: nat) returns (r: Result<()>)
      requires Valid() && offset > |buffer|
      modifies this`stream, this`chunks, this`buffer, this`cursor, this`taken, this`size, this`demand, store`requests, stream
      ensures r.Err? ==> r.error == S3Exception && !store.Orderly()
      ensures r.Ok? ==>
                && Streaming() && Lazy() && demand == Max(old(demand), offset)
                && size == (if offset > |Content()| then Some(|Content()|) else old(size))
                && |buffer| >= Min(offset, |Content()|) && |buffer| >= old(|buffer|) && cursor == |buffer|
                && stream != null && (fresh(stream) || stream == old(stream))
    {
      hide Streaming, IsFewest, AllShort;
      Prefetch();
      cursor := |buffer|;
      r := TakeUntil(offset);
      demand := Max(demand, offset);
    }

    lemma BufferedSoFar()
      requires Streaming()
      ensures taken <= |chunks| && |buffer| == |Flatten(chunks[..taken])| <= |Content()|
    {
    }

    /** At the end of the stream the buffer is the whole object. */
    method RecordSize()
      requires Streaming() && buffer == Content()
      modifies this`size
      ensures Streaming() && size == Some(|Content()|)
    {
      size := Some(|buffer|);
    }

    /** Reads chunks until the buffer reaches `offset`, or notices the end of the object. */
    method TakeUntil(offset: nat) returns (r: Result<()>)
      requires Streaming() && Lazy() && stream != null && offset > |buffer| && cursor == |buffer|
      modifies this`buffer, this`cursor, this`taken, this`size, stream
      ensures r.Err? ==> r.error == S3Exception && !store.Orderly()
      ensures r.Ok? ==>
                && Streaming()
                && (if drained then taken == |chunks| else IsFewest(chunks, Max(demand, offset), taken))
                && size == (if offset > |Content()| then Some(|Content()|) else old(size))
                && |buffer| >= Min(offset, |Content()|) && |buffer| >= old(|buffer|) && cursor == |buffer|
    {
      hide Flatten, Streaming;
      BufferedSoFar();
      while offset > |buffer|
        invariant Streaming() && taken <= |chunks|
        invariant |buffer| == |Flatten(chunks[..taken])| <= |Content()|
        invariant |buffer| >= old(|buffer|) && cursor == |buffer| && size == old(size)
        invariant drained ==> taken == |chunks|
        invariant !drained ==> AllShort(chunks, Max(demand, offset), taken) && (taken < |chunks| ==> demand <= |buffer|)
        decreases |chunks| - taken
      {
        var more := TakeChunk();
        if more.Err? {
          return Err(more.error);
        }
        if !more.value {
          RecordSize();
          break;
        }
        BufferedSoFar();
        cursor := |buffer|;
      }
      return Ok(());
    }

    method GetSize() returns (n: nat)
      requires Valid()
      modifies this`size
      ensures Valid() && State() == old(State()).(sizeKnown := true)
      ensures n == |Content()| && size == Some(n)
    {
      if size.None? {
        var objectSize := store.GetObjectSize();
        size := Some(objectSize);
      }
      n := size.value;
    }

    predicate PositionAtEnd()
      reads this`size, this`position
    {
      size.Some? && position == size.value
    }

    /** The common tail of `seek`: prefetch if needed, then move, never past the end. */
    method MoveCursor(target: nat) returns (r: Result<()>)
      requires Valid()
      modifies this, store`requests, stream
      ensures r.Err? ==> r.error == S3Exception && !store.Orderly()
      ensures r.Ok? ==>
                && Valid() && State() == MoveTo(Content(), old(State()), target)
                && cursor == position && position <= |buffer|
                && (stream == null || fresh(stream) || stream == old(stream))
    {
      hide Payloads, GetObjectStream.Valid, GetObjectStream.Orderly, GetObjectStream.Uncut, GetObjectStream.OnTrack;
      hide ObjectStore.Valid, ObjectStore.Orderly, ObjectStore.Uncut;
      var offset := target;
      if offset > |buffer| {
        r := PrefetchToOffset(offset);
        if r.Err? {
          return;
        }
      } else {
        demand := Max(demand, offset);
      }
      if size.Some? {
        offset := Min(offset, size.value);
      }
      cursor := offset;
      position := cursor;
      return Ok(());
    }

    /** A rejected seek leaves the position alone; it may have recorded the size. */
    method Seek(offset: int, whence: Whence) returns (r: Result<nat>)
      requires Valid()
      modifies this, store`requests, stream
      ensures Failed(r) ==> !store.Orderly()
      ensures !Failed(r) ==>
                && Valid() && SeqStep(Content(), old(State()), ReaderOp.Seek(offset, whence)) ==
                              (State(), if r.Ok? then Position(r.value) else Rejected)
                && (stream == null || fresh(stream) || stream == old(stream))
      ensures whence.End? && offset >= 0 ==> stream == old(stream) && store.requests == old(store.requests) && r.Ok?
      ensures r.Ok? && (whence.Set? || (whence.Cur? && (offset < 0 || !old(PositionAtEnd())))) ==> cursor == position <= |buffer|
    {
      hide Streaming, Lazy, ObjectStore.Orderly;
      var target := offset;
      match whence {
        case End =>
          SizeIsLength();
          var n := GetSize();
          if offset >= 0 {
            position := n;
            return Ok(position);
          }
          target := offset + n;
        case Cur =>
          SizeIsLength();
          if PositionAtEnd() && offset >= 0 {
            return Ok(position);
          }
          target := offset + position;
        case Set =>
        case Other =>
          return Err(ValueError);
      }
      if target < 0 {
        return Err(ValueError);
      }
      var moved := MoveCursor(target);
      return if moved.Ok? then Ok(position) else Err(moved.error);
    }

    lemma SizeIsLength()
      requires Valid()
      ensures size.Some? ==> size.value == |Content()|
    {
    }

    /** A buffer that reaches far enough answers like the whole object. */
    lemma BufferedRead(pos: nat, n: nat)
      requires Valid() && pos <= |buffer| && Min(pos + n, |Content()|) <= |buffer|
      ensures BytesAt(buffer, pos, n) == BytesAt(Content(), pos, n)
      ensures pos + |BytesAt(buffer, pos, n)| == Min(pos + n, |Content()|)
    {
    }

    method Tell() returns (p: nat)
      requires Valid()
      ensures SeqStep(Content(), State(), ReaderOp.Tell) == (State(), Position(p))
    {
      p := position;
    }

    /** `for batch in self._stream: self._buffer.write(batch)`. */
    method Drain() returns (r: Result<()>)
      requires Valid() && stream != null
      modifies this`buffer, this`cursor, this`taken, this`size, this`drained, stream
      ensures r.Err? ==> r.error == S3Exception && !store.Orderly()
      ensures r.Ok? ==> Streaming() && Lazy() && drained && buffer == Content() && size == Some(|Content()|)
    {
      hide Flatten, Payloads, GetObjectStream.Valid, GetObjectStream.Orderly, GetObjectStream.Uncut;
      hide GetObjectStream.OnTrack;
      hide ObjectStore.Valid, ObjectStore.Orderly, ObjectStore.Uncut;
      cursor := |buffer|;
      var more := Ok(true);
      while more.value
        invariant Streaming() && cursor == |buffer| && more.Ok?
        invariant !more.value ==> buffer == Content() && taken == |chunks|
        decreases |chunks| - taken, more.value
      {
        more := TakeChunk();
        if more.Err? {
          return Err(more.error);
        }
        cursor := |buffer|;
      }
      size := Some(cursor);
      drained := true;
      return Ok(());
    }

    lemma StartIsBuffered()
      requires Valid() && !PositionAtEnd()
      ensures position <= |buffer|
    {
    }

    /** `self._buffer.seek(start)`, a read from the buffer, and the position behind it. */
    method FromBuffer(start: nat, n: nat) returns (data: Bytes)
      requires Valid() && start <= |buffer| && Min(start + n, |Content()|) <= |buffer|
      modifies this`cursor, this`position
      ensures Valid() && State() == old(State()).(position := Min(start + n, |Content()|))
      ensures data == BytesAt(Content(), start, n)
    {
      hide Streaming, Lazy;
      BufferedRead(start, n);
      cursor := start;
      data := BytesAt(buffer, cursor, n);
      cursor := cursor + |data|;
      position := cursor;
    }

    /** Loads enough bytes by seeking over them, comes back, and reads them from the buffer. */
    method ReadAhead(n: nat) returns (r: Result<Bytes>)
      requires Valid() && !PositionAtEnd()
      modifies this, store`requests, stream
      ensures r.Err? ==> r.error == S3Exception && !store.Orderly()
      ensures r.Ok? ==>
                && Valid() && State() == MoveTo(Content(), old(State()), old(position) + n).(started := true)
                && r.value == BytesAt(Content(), old(position), n)
                && (stream == null || fresh(stream) || stream == old(stream))
    {
      hide Streaming, Lazy, ObjectStore.Orderly;
      SizeIsLength();
      Prefetch();
      var start := position;
      StartIsBuffered();
      var sought := Seek(n, Cur);
      if sought.Err? {
        return Err(sought.error);
      }
      var data := FromBuffer(start, n);
      return Ok(data);
    }

    /** The special case for a read to the end. */
    method ReadAll() returns (r: Result<Bytes>)
      requires Valid() && !PositionAtEnd()
      modifies this, store`requests, stream
      ensures r.Err? ==> r.error == S3Exception && !store.Orderly()
      ensures r.Ok? ==>
                && Valid()
                && State() == old(State()).(position := |Content()|, sizeKnown := true, drained := true, started := true)
                && r.value == Content()[old(position)..]
                && (stream == null || fresh(stream) || stream == old(stream))
    {
      hide Streaming, Lazy, ObjectStore.Orderly;
      Prefetch();
      var start := position;
      StartIsBuffered();
      var drain := Drain();
      if drain.Err? {
        return Err(drain.error);
      }
      cursor := start;
      var data := buffer[cursor..];
      cursor := cursor + |data|;
      position := cursor;
      return Ok(data);
    }

    method Read(n: Option<int>) returns (r: Result<Bytes>)
      requires Valid()
      modifies this, store`requests, stream
      ensures r.Err? ==> r.error == S3Exception && !store.Orderly()
      ensures r.Ok? ==>
                && Valid() && SeqStep(Content(), old(State()), ReaderOp.Read(n)) == (State(), Data(r.value))
                && (stream == null || fresh(stream) || stream == old(stream))
    {
      hide Streaming, Lazy, ObjectStore.Orderly;
      SizeIsLength();
      if PositionAtEnd() {
        return Ok([]);
      }
      if n.None? || n.value < 0 {
        r := ReadAll();
      } else {
        r := ReadAhead(n.value);
      }
    }

    method ReadInto(dest: array<byte>) returns (r: Result<nat>)
      requires Valid()
      modifies this, store`requests, stream, dest
      ensures r.Err? ==> r.error == S3Exception && !store.Orderly()
      ensures r.Ok? ==>
                && Valid()
                && SeqStep(Content(), old(State()), ReaderOp.ReadInto(old(dest[..]))) == (State(), Filled(r.value, dest[..]))
                && (stream == null || fresh(stream) || stream == old(stream))
    {
      hide Streaming, Lazy, ObjectStore.Orderly;
      SizeIsLength();
      if PositionAtEnd() || dest.Length == 0 {
        return Ok(0);
      }
      var data := ReadAhead(dest.Length);
      if data.Err? {
        return Err(data.error);
      }
      var n := |data.value|;
      forall k | 0 <= k < n {
        dest[k] := data.value[k];
      }
      assert dest[..] == Overlay(old(dest[..]), data.value);
      return Ok(n);
    }
  }
}
