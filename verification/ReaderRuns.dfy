/**
  Whole runs of the sequential and the ranged reader: both are one and the same plain file, one of
  them lazy, the other frugal with its requests.
 */
module ReaderRuns {
  import opened Results
  import opened Arithmetic
  import opened ByteStreams
  import opened FileSpec
  import opened SequentialReaders
  import opened RangedReaders

  // ---------- runs of the two specifications ----------

  ghost function SeqRun(content: Bytes, ops: seq<ReaderOp>): (r: (SeqState, seq<Answer>))
    ensures r.0.position <= |content|
  {
    if ops == [] then (UNREAD, [])
    else
      var (st, answers) := SeqRun(content, ops[..|ops| - 1]);
      SeqRefinesFile(content, st, ops[|ops| - 1]);
      var (st', answer) := SeqStep(content, st, ops[|ops| - 1]);
      (st', answers + [answer])
  }

  ghost function RangedRun(content: Bytes, bufferSize: int,
                           ops: seq<ReaderOp>): (r: (RangedState, seq<Answer>, seq<Request>))
    ensures RangedReaders.Sound(content, r.0)
  {
    if ops == [] then (UNTOUCHED, [], [])
    else
      var (st, answers, requests) := RangedRun(content, bufferSize, ops[..|ops| - 1]);
      RangedRefinesFile(content, bufferSize, st, ops[|ops| - 1]);
      var (st', answer, more) := RangedStep(content, bufferSize, st, ops[|ops| - 1]);
      (st', answers + [answer], requests + more)
  }

  /** Any run of either reader is the run of the plain file: same answers, rejections and positions. */
  lemma {:induction false} RunsAgree(content: Bytes, bufferSize: int, ops: seq<ReaderOp>)
    ensures var (answers, position) := FileRun(content, 0, ops);
            && SeqRun(content, ops).1 == answers && SeqRun(content, ops).0.position == position
            && RangedRun(content, bufferSize, ops).1 == answers && RangedRun(content, bufferSize, ops).0.position == position
  {
    if ops != [] {
      var n := |ops| - 1;
      RunsAgree(content, bufferSize, ops[..n]);
      SeqRefinesFile(content, SeqRun(content, ops[..n]).0, ops[n]);
      RangedRefinesFile(content, bufferSize, RangedRun(content, bufferSize, ops[..n]).0, ops[n]);
    }
  }

  // ---------- what the sequential reader needs, from the calls alone ----------

  /** How far into the object the call has to reach, at `pos`; a read at a known end reaches for nothing. */
  function Asks(content: Bytes, sizeKnown: bool, pos: nat, op: ReaderOp): nat {
    match op
    case Tell => 0
    case Read(size) =>
      if (sizeKnown && pos == |content|) || size.None? || size.value < 0 then 0 else pos + size.value
    case ReadInto(dest) =>
      if (sizeKnown && pos == |content|) || |dest| == 0 then 0 else pos + |dest|
    case Seek(offset, whence) =>
      match whence
      case Set => if offset < 0 then 0 else offset
      case Cur => if (sizeKnown && pos == |content| && offset >= 0) || pos + offset < 0 then 0 else pos + offset
      case End => if offset >= 0 || |content| + offset < 0 then 0 else |content| + offset
      case Other => 0
  }

  /** The call reads to the end, or reaches behind it, or asks where it is. */
  predicate RecordsSize(content: Bytes, pos: nat, op: ReaderOp) {
    match op
    case Tell => false
    case Read(size) => size.None? || size.value < 0 || pos + size.value > |content|
    case ReadInto(dest) => pos + |dest| > |content|
    case Seek(offset, whence) =>
      whence.End? || (whence.Set? && offset > |content|) || (whence.Cur? && pos + offset > |content|)
  }

  /** Whether some call recorded the size. */
  function SizeRecorded(content: Bytes, ops: seq<ReaderOp>): bool {
    ops != []
    && var n := |ops| - 1;
    SizeRecorded(content, ops[..n]) || RecordsSize(content, FileRun(content, 0, ops[..n]).1, ops[n])
  }

  /** The largest offset any call has to reach. */
  function Demanded(content: Bytes, ops: seq<ReaderOp>): nat {
    if ops == [] then 0
    else
      var n := |ops| - 1;
      var asks := Asks(content, SizeRecorded(content, ops[..n]), FileRun(content, 0, ops[..n]).1, ops[n]);
      if asks > Demanded(content, ops[..n]) then asks else Demanded(content, ops[..n])
  }

  /** Whether some call read to an end that was not known to be reached. */
  function ReadToEnd(content: Bytes, ops: seq<ReaderOp>): bool {
    ops != []
    && var n := |ops| - 1;
    ReadToEnd(content, ops[..n])
    || (ops[n].Read? && (ops[n].size.None? || ops[n].size.value < 0)
        && !(SizeRecorded(content, ops[..n]) && FileRun(content, 0, ops[..n]).1 == |content|))
  }

  /** Whether some call needed the stream: a `read`, unless at a known end, or one that has to reach somewhere. */
  function NeedsStream(content: Bytes, ops: seq<ReaderOp>): bool {
    ops != []
    && var n := |ops| - 1;
    var sizeKnown, pos := SizeRecorded(content, ops[..n]), FileRun(content, 0, ops[..n]).1;
    || NeedsStream(content, ops[..n])
    || (ops[n].Read? && !(sizeKnown && pos == |content|))
    || Asks(content, sizeKnown, pos, ops[n]) > 0
  }

  /** The reader's state is what the calls say. */
  lemma {:induction false} StateFromCalls(content: Bytes, ops: seq<ReaderOp>)
    ensures SeqRun(content, ops).0 ==
            SeqState(FileRun(content, 0, ops).1, SizeRecorded(content, ops), Demanded(content, ops),
                     ReadToEnd(content, ops), NeedsStream(content, ops))
    decreases |ops|
  {
    if ops != [] {
      var n := |ops| - 1;
      StateFromCalls(content, ops[..n]);
      SeqRefinesFile(content, SeqRun(content, ops[..n]).0, ops[n]);
      StepFromCall(content, SeqRun(content, ops[..n]).0, ops[n]);
    }
  }

  lemma StepFromCall(content: Bytes, st: SeqState, op: ReaderOp)
    requires st.position <= |content|
    ensures var st' := SeqStep(content, st, op).0;
            var asks := Asks(content, st.sizeKnown, st.position, op);
            && st'.sizeKnown == (st.sizeKnown || RecordsSize(content, st.position, op))
            && st'.demand == (if asks > st.demand then asks else st.demand)
            && st'.drained == (st.drained || (op.Read? && (op.size.None? || op.size.value < 0)
                                              && !(st.sizeKnown && st.position == |content|)))
            && st'.started == (st.started || (op.Read? && !(st.sizeKnown && st.position == |content|)) || asks > 0)
  {
    match op {
      case Seek(offset, whence) =>
        match whence {
          case Set =>
          case Cur =>
          case End =>
          case Other =>
        }
      case _ =>
    }
  }

  // ---------- requests of the ranged reader ----------

  /** Increasing, pairwise disjoint, non-empty byte ranges. */
  ghost predicate Ascending(requests: seq<Request>) {
    && (forall i :: 0 <= i < |requests| ==> requests[i].Bounded? && requests[i].start < requests[i].end)
    && (forall i, j :: 0 <= i < j < |requests| ==> requests[i].end <= requests[j].start)
  }

  /** The buffer never holds more than it has room for. */
  predicate FitsBuffer(bufferSize: int, st: RangedState) {
    st.bufferEnd - st.bufferStart <= Max(bufferSize, 0)
  }

  /**
    What a read of `n` bytes requests, in plain numbers.  Nothing at the end, or when the buffer holds all of it.
    Otherwise one range, which starts behind what the buffer holds of the front.  It is exactly what is
    missing, and the buffer stays, if that is at least a buffer's size; otherwise it is a full buffer, as
    far as the object goes, and becomes the buffer.
   */
  lemma RequestsOfRead(content: Bytes, bufferSize: int, st: RangedState, n: nat)
    requires RangedReaders.Sound(content, st) && FitsBuffer(bufferSize, st)
    ensures var (st', requests) := RangedRead(content, bufferSize, st, n);
            var end := if st.position + n <= |content| then st.position + n else |content|;
            && FitsBuffer(bufferSize, st') && st'.position == (if end > st.position then end else st.position)
            && if st.position == end || (bufferSize > 0 && st.bufferStart <= st.position && end <= st.bufferEnd) then
                 requests == [] && st'.bufferStart == st.bufferStart && st'.bufferEnd == st.bufferEnd
               else
                 var from := if st.bufferStart <= st.position < st.bufferEnd then st.bufferEnd else st.position;
                 && |requests| == 1 && requests[0].Bounded? && requests[0].start == from
                 && if end - from >= bufferSize then
                      requests[0].end == end && st'.bufferStart == st.bufferStart && st'.bufferEnd == st.bufferEnd
                    else
                      && st'.bufferStart == from && st'.bufferEnd == requests[0].end
                      && (if from + bufferSize <= |content| then requests[0].end == from + bufferSize
                          else requests[0].end == |content|)
  {
  }

  /** Seeks and `tell` request nothing and leave the buffer; a rejected call leaves everything. */
  lemma RequestsOfCall(content: Bytes, bufferSize: int, st: RangedState, op: ReaderOp)
    requires RangedReaders.Sound(content, st)
    ensures var (st', answer, requests) := RangedStep(content, bufferSize, st, op);
            match op
            case Read(size) =>
              var n := if size.None? || size.value < 0 then |content| - st.position else size.value;
              (st', requests) == RangedRead(content, bufferSize, st, n)
            case ReadInto(dest) => (st', requests) == RangedRead(content, bufferSize, st, |dest|)
            case _ =>
              && requests == [] && st'.bufferStart == st.bufferStart && st'.bufferEnd == st.bufferEnd
              && (answer == Rejected ==> st' == st)
  {
  }

  /** No call moves the position backwards. */
  ghost predicate NeverBack(content: Bytes, bufferSize: int, ops: seq<ReaderOp>) {
    forall k :: 0 < k <= |ops| ==>
                  RangedRun(content, bufferSize, ops[..k - 1]).0.position <= RangedRun(content, bufferSize, ops[..k]).0.position
  }

  /** Whatever was requested lies behind the position, except for the buffered range. */
  ghost predicate Behind(bufferSize: int, st: RangedState, requests: seq<Request>) {
    && st.bufferStart <= st.position
    && st.bufferEnd - st.bufferStart <= Max(bufferSize, 0)
    && Ascending(requests)
    && (requests == [] ==> st.bufferEnd == 0)
    && (requests != [] ==>
          var last := requests[|requests| - 1].end;
          st.bufferEnd <= last && (last <= st.position || last == st.bufferEnd))
  }

  lemma AscendingAppend(requests: seq<Request>, r: Request)
    requires Ascending(requests) && r.Bounded? && r.start < r.end
    requires requests != [] ==> requests[|requests| - 1].end <= r.start
    ensures Ascending(requests + [r])
  {
    forall i | 0 <= i < |requests| ensures requests[i].end <= r.start {
      if i < |requests| - 1 {
        assert requests[i].end <= requests[|requests| - 1].start;
      }
    }
  }

  /** A read that has to request anything requests bytes behind all earlier ones. */
  lemma BehindRead(content: Bytes, bufferSize: int, st: RangedState, requests: seq<Request>, n: nat)
    requires RangedReaders.Sound(content, st) && Behind(bufferSize, st, requests)
    ensures var (st', more) := RangedRead(content, bufferSize, st, n);
            Behind(bufferSize, st', requests + more)
  {
    var end := Min(st.position + n, |content|);
    var (st', more) := RangedRead(content, bufferSize, st, n);
    if more == [] {
      assert requests + more == requests;
    } else {
      var from := Remaining(st, st.position, end);
      assert more[0].start == from < more[0].end;
      assert requests != [] ==> requests[|requests| - 1].end <= from;
      AscendingAppend(requests, more[0]);
      assert requests + more == requests + [more[0]];
    }
  }

  lemma BehindStep(content: Bytes, bufferSize: int, st: RangedState, requests: seq<Request>, op: ReaderOp)
    requires RangedReaders.Sound(content, st) && Behind(bufferSize, st, requests)
    requires st.position <= RangedStep(content, bufferSize, st, op).0.position
    ensures var (st', _, more) := RangedStep(content, bufferSize, st, op);
            Behind(bufferSize, st', requests + more)
  {
    hide RangedRead, Ascending;
    match op {
      case Read(size) => BehindRead(content, bufferSize, st, requests, Wanted(content, st, size));
      case ReadInto(dest) => BehindRead(content, bufferSize, st, requests, |dest|);
      case _ => assert requests + [] == requests;
    }
  }

  /** A run that only moves forward never requests a byte twice. */
  lemma {:induction false} ForwardRunsAscend(content: Bytes, bufferSize: int, ops: seq<ReaderOp>)
    requires NeverBack(content, bufferSize, ops)
    ensures var (st, _, requests) := RangedRun(content, bufferSize, ops);
            Behind(bufferSize, st, requests)
  {
    if ops != [] {
      var n := |ops| - 1;
      assert ops[..|ops|] == ops;
      var before := ops[..n];
      assert NeverBack(content, bufferSize, before) by {
        forall k | 0 < k <= n
          ensures RangedRun(content, bufferSize, before[..k - 1]).0.position <=
                  RangedRun(content, bufferSize, before[..k]).0.position
        {
          assert before[..k] == ops[..k] && before[..k - 1] == ops[..k - 1];
        }
      }
      ForwardRunsAscend(content, bufferSize, ops[..n]);
      var (st, _, requests) := RangedRun(content, bufferSize, ops[..n]);
      BehindStep(content, bufferSize, st, requests, ops[n]);
    }
  }

  /** A read of fewer than `bufferSize` bytes, or `tell`. */
  predicate SmallRead(bufferSize: int, op: ReaderOp) {
    match op
    case Read(size) => size.Some? && 0 <= size.value < bufferSize
    case ReadInto(dest) => |dest| < bufferSize
    case Tell => true
    case Seek(_, _) => false
  }

  /** The `m` buffer-sized tiles the object starts with, the last one clipped to its end. */
  ghost predicate IsTiling(size: nat, bufferSize: nat, requests: seq<Request>) {
    forall k :: 0 <= k < |requests| ==> requests[k] == Tile(size, bufferSize, k)
  }

  ghost function Tile(size: nat, bufferSize: nat, k: nat): Request {
    Bounded(k * bufferSize, Min((k + 1) * bufferSize, size))
  }

  /** The last tile is the buffer, and the position is inside it or at its end. */
  ghost predicate Tiled(size: nat, bufferSize: nat, st: RangedState, requests: seq<Request>) {
    && IsTiling(size, bufferSize, requests)
    && (requests == [] ==> st == UNTOUCHED)
    && (requests != [] ==>
          && Bounded(st.bufferStart, st.bufferEnd) == Tile(size, bufferSize, |requests| - 1)
          && st.bufferStart < st.position <= st.bufferEnd)
  }

  lemma TiledRead(content: Bytes, bufferSize: nat, st: RangedState, requests: seq<Request>, n: nat)
    requires RangedReaders.Sound(content, st) && Tiled(|content|, bufferSize, st, requests) && n < bufferSize
    ensures var (st', more) := RangedRead(content, bufferSize, st, n);
            Tiled(|content|, bufferSize, st', requests + more)
  {
    var m := |requests|;
    var edge := m * bufferSize;
    var end := Min(st.position + n, |content|);
    var (st', more) := RangedRead(content, bufferSize, st, n);
    assert Tile(|content|, bufferSize, m) == Bounded(edge, Min(edge + bufferSize, |content|));
    assert m > 0 ==> st.bufferStart == edge - bufferSize && st.bufferEnd == Min(edge, |content|) by {
      assert (m - 1 + 1) * bufferSize == edge && (m - 1) * bufferSize == edge - bufferSize;
    }
    ServedByTiles(content, bufferSize, st, n, edge);
    if more == [] {
      assert requests + more == requests;
    }
  }

  /** With the buffer ending at a tile edge, a small read takes at most the tile behind it. */
  lemma ServedByTiles(content: Bytes, bufferSize: nat, st: RangedState, n: nat, edge: nat)
    requires RangedReaders.Sound(content, st) && n < bufferSize
    requires (st == UNTOUCHED && edge == 0)
             || (edge >= bufferSize && st.bufferStart == edge - bufferSize && st.bufferEnd == Min(edge, |content|)
                 && st.bufferStart < st.position <= st.bufferEnd)
    ensures var (st', more) := RangedRead(content, bufferSize, st, n);
            && (more == [] ==> st' == st.(position := st'.position) && st.position <= st'.position
                               && (st == UNTOUCHED ==> st' == st) && (st != UNTOUCHED ==> st'.position <= st'.bufferEnd))
            && (more != [] ==>
                  && more == [Bounded(edge, Min(edge + bufferSize, |content|))]
                  && st'.bufferStart == edge && st'.bufferEnd == Min(edge + bufferSize, |content|)
                  && edge < st'.position <= st'.bufferEnd)
  {
  }

  lemma TiledStep(content: Bytes, bufferSize: nat, st: RangedState, requests: seq<Request>, op: ReaderOp)
    requires RangedReaders.Sound(content, st) && Tiled(|content|, bufferSize, st, requests) && SmallRead(bufferSize, op)
    ensures var (st', _, more) := RangedStep(content, bufferSize, st, op);
            Tiled(|content|, bufferSize, st', requests + more)
  {
    match op {
      case Read(size) => TiledRead(content, bufferSize, st, requests, size.value);
      case ReadInto(dest) => TiledRead(content, bufferSize, st, requests, |dest|);
      case Tell => assert requests + [] == requests;
      case Seek(_, _) =>
    }
  }

  lemma CeilingOfTiles(bufferSize: nat, position: nat, m: nat)
    requires bufferSize > 0
    requires if m == 0 then position == 0 else (m - 1) * bufferSize < position <= m * bufferSize
    ensures m == (position + bufferSize - 1) / bufferSize
  {
    var q := (position + bufferSize - 1) / bufferSize;
    var r := (position + bufferSize - 1) % bufferSize;
    assert q * bufferSize + r == position + bufferSize - 1;
    if q < m { MulMonotone(q + 1, m, bufferSize); }
    if m < q { MulMonotone(m + 1, q, bufferSize); }
  }

  /** Small sequential reads request exactly the tiles up to the position, each once, in order. */
  lemma {:induction false} SmallReadsTile(content: Bytes, bufferSize: nat, ops: seq<ReaderOp>)
    requires bufferSize > 0 && forall op <- ops :: SmallRead(bufferSize, op)
    ensures var (st, _, requests) := RangedRun(content, bufferSize, ops);
            && Tiled(|content|, bufferSize, st, requests)
            && |requests| == (st.position + bufferSize - 1) / bufferSize
  {
    if ops != [] {
      var n := |ops| - 1;
      assert ops[n] in ops;
      forall op | op in ops[..n] ensures SmallRead(bufferSize, op) {}
      SmallReadsTile(content, bufferSize, ops[..n]);
      var (st, _, requests) := RangedRun(content, bufferSize, ops[..n]);
      TiledStep(content, bufferSize, st, requests, ops[n]);
    }
    var (st, _, requests) := RangedRun(content, bufferSize, ops);
    CeilingOfTiles(bufferSize, st.position, |requests|);
  }

  // ---------- runs on the readers themselves ----------

  method PerformSequential(reader: SequentialS3Reader, op: ReaderOp) returns (r: Result<Answer>)
    requires reader.Valid()
    modifies reader, reader.store`requests, reader.stream
    ensures r.Err? ==> r.error == S3Exception && !reader.store.Orderly()
    ensures r.Ok? ==>
              && reader.Valid() && SeqStep(reader.Content(), old(reader.State()), op) == (reader.State(), r.value)
              && (reader.stream == null || fresh(reader.stream) || reader.stream == old(reader.stream))
  {
    hide SequentialS3Reader.Valid, SeqStep, ObjectStore.Orderly;
    match op {
      case Tell =>
        var p := reader.Tell();
        return Ok(Position(p));
      case Seek(offset, whence) =>
        var p := reader.Seek(offset, whence);
        return if Failed(p) then Err(S3Exception) else Ok(if p.Ok? then Position(p.value) else Rejected);
      case Read(size) =>
        var data := reader.Read(size);
        return if data.Ok? then Ok(Data(data.value)) else Err(data.error);
      case ReadInto(initial) =>
        var dest := new byte[|initial|](i requires 0 <= i < |initial| => initial[i]);
        assert dest[..] == initial;
        var n := reader.ReadInto(dest);
        return if n.Ok? then Ok(Filled(n.value, dest[..])) else Err(n.error);
    }
  }

  method PerformRanged(reader: RangedS3Reader, op: ReaderOp) returns (r: Result<Answer>)
    requires reader.Valid()
    modifies reader, reader.buffer, reader.store`requests
    ensures r.Err? ==> r.error == S3Exception && !reader.store.Orderly()
    ensures r.Ok? ==> reader.Valid()
    ensures r.Ok? ==>
              var (st, a, requests) := RangedStep(reader.Content(), reader.bufferSize, old(reader.State()), op);
              st == reader.State() && a == r.value && reader.store.requests == old(reader.store.requests) + requests
  {
    hide RangedStep, ObjectStore.Orderly;
    match op {
      case Tell =>
        var p := reader.Tell();
        return Ok(Position(p));
      case Seek(offset, whence) =>
        var p := reader.Seek(offset, whence);
        return Ok(if p.Ok? then Position(p.value) else Rejected);
      case Read(size) =>
        var data := reader.Read(size);
        return if data.Ok? then Ok(Data(data.value)) else Err(data.error);
      case ReadInto(initial) =>
        var dest := new byte[|initial|](i requires 0 <= i < |initial| => initial[i]);
        assert dest[..] == initial;
        var n := reader.ReadInto(dest);
        return if n.Ok? then Ok(Filled(n.value, dest[..])) else Err(n.error);
    }
  }

  /** The buffer is the concatenation of the fewest leading chunks that reach `demand`. */
  ghost predicate IsLazyBuffer(chunks: seq<Bytes>, demand: nat, buffer: Bytes) {
    exists k: nat ::
      && k <= |chunks| && buffer == Flatten(chunks[..k])
      && (k < |chunks| ==> |buffer| >= demand)
      && (k > 0 ==> |Flatten(chunks[..k - 1])| < demand)
  }

  /**
    Any run on a fresh sequential reader, whatever the chunking.  Every call that returns answers like a
    plain file, and a run stops only at an error of the S3 client.  A run that does not stop makes at
    most one request, exactly if a call needs the stream; as long as nothing was read to the end, it holds no
    more chunks than the largest offset the calls have to reach demands; and it knows the size exactly if a
    call recorded it.
   */
  method RunSequential(content: Bytes, answers: Answers, ops: seq<ReaderOp>)
    returns (log: seq<Answer>, buffer: Bytes, size: Option<nat>, requests: seq<Request>)
    requires HonestAnswers(content, answers) && UncutAnswers(content, answers)
    ensures |log| <= |ops| && log == FileRun(content, 0, ops[..|log|]).0
    ensures RunObeys(content, ops, log)
    ensures forall i: nat, k: nat :: i < |log| ==> LastBytesRead(content, ops, log, i, k)
    ensures OrderlyAnswers(content, answers) ==> |log| == |ops|
    ensures |log| == |ops| ==>
              && requests == (if NeedsStream(content, ops) then [Whole] else [])
              && size == (if SizeRecorded(content, ops) then Some(|content|) else None)
              && (if ReadToEnd(content, ops) then buffer == content
                  else IsLazyBuffer(Payloads(answers(0, Whole)), Demanded(content, ops), buffer))
  {
    hide SequentialS3Reader.Valid, HonestAnswers, OrderlyAnswers, UncutAnswers, SeqStep;
    var store := new ObjectStore(content, answers);
    var reader := new SequentialS3Reader(store);
    log := [];
    for k := 0 to |ops|
      invariant reader.Valid() && fresh(reader) && fresh(store) && reader.store == store
      invariant reader.stream == null || fresh(reader.stream)
      invariant SeqRun(content, ops[..k]) == (reader.State(), log) && |log| == k
      invariant reader.earlier == []
    {
      RunsAgree(content, 0, ops[..k]);
      assert ops[..k + 1][..k] == ops[..k];
      var answer := PerformSequential(reader, ops[k]);
      if answer.Err? {
        PrefixObeys(content, ops, k);
        return log, [], None, store.requests;
      }
      log := log + [answer.value];
    }
    assert ops[..|ops|] == ops;
    RunsAgree(content, 0, ops);
    PrefixObeys(content, ops, |ops|);
    StateFromCalls(content, ops);
    LazyAtEnd(reader);
    return log, reader.buffer, reader.size, store.requests;
  }

  lemma LazyAtEnd(reader: SequentialS3Reader)
    requires reader.Valid() && reader.earlier == []
    ensures reader.store.requests == if reader.stream != null then [Whole] else []
    ensures reader.size.Some? ==> reader.size.value == |reader.Content()|
    ensures reader.drained ==> reader.buffer == reader.Content()
    ensures !reader.drained ==> IsLazyBuffer(Payloads(reader.store.answers(0, Whole)), reader.demand, reader.buffer)
  {
    var all := Payloads(reader.store.answers(0, Whole));
    if reader.stream == null {
      assert Flatten(reader.chunks[..reader.taken]) == [] == Flatten(all[..0]);
      assert IsLazyBuffer(all, 0, reader.buffer) by { assert reader.buffer == Flatten(all[..0]); }
    } else if reader.drained {
      assert |Payloads(reader.stream.nextParts)| == 0;
    } else {
      var k := reader.taken;
      assert IsFewest(all, reader.demand, k) && reader.buffer == Flatten(all[..k]);
      if k > 0 { assert |Flatten(all[..k - 1])| < reader.demand; }
    }
  }

  /**
    Any run on a fresh ranged reader, whatever its buffer size and the chunking of every response.  Every call
    that returns answers like a plain file, and a run stops only at an error of the S3 client.  A run
    that does not stop makes the specified requests; if it never moves back, it never requests a byte twice.
   */
  method RunRanged(content: Bytes, answers: Answers, bufferSize: Option<int>, ops: seq<ReaderOp>)
    returns (log: seq<Answer>, requests: seq<Request>)
    requires HonestAnswers(content, answers) && UncutAnswers(content, answers)
    ensures |log| <= |ops| && log == FileRun(content, 0, ops[..|log|]).0
    ensures RunObeys(content, ops, log)
    ensures forall i: nat, k: nat :: i < |log| ==> LastBytesRead(content, ops, log, i, k)
    ensures OrderlyAnswers(content, answers) ==> |log| == |ops|
    ensures |log| == |ops| ==>
              var size := if bufferSize.None? then 8 * 1024 * 1024 else bufferSize.value;
              && requests == RangedRun(content, size, ops).2
              && (NeverBack(content, size, ops) ==> Ascending(requests))
  {
    hide HonestAnswers, OrderlyAnswers, UncutAnswers, RangedStep;
    var store := new ObjectStore(content, answers);
    var reader := new RangedS3Reader(store, bufferSize);
    ghost var size := reader.bufferSize;
    log := [];
    for k := 0 to |ops|
      invariant reader.Valid() && fresh(reader) && fresh(store) && reader.store == store
      invariant reader.buffer == null || fresh(reader.buffer)
      invariant RangedRun(content, size, ops[..k]) == (reader.State(), log, store.requests) && |log| == k
    {
      RunsAgree(content, size, ops[..k]);
      assert ops[..k + 1][..k] == ops[..k];
      var answer := PerformRanged(reader, ops[k]);
      if answer.Err? {
        PrefixObeys(content, ops, k);
        return log, store.requests;
      }
      log := log + [answer.value];
    }
    assert ops[..|ops|] == ops;
    RunsAgree(content, size, ops);
    PrefixObeys(content, ops, |ops|);
    if NeverBack(content, size, ops) {
      ForwardRunsAscend(content, size, ops);
    }
    return log, store.requests;
  }

  /** The first answers of a run obey the file's law. */
  lemma PrefixObeys(content: Bytes, ops: seq<ReaderOp>, k: nat)
    requires k <= |ops|
    ensures RunObeys(content, ops, FileRun(content, 0, ops[..k]).0)
    ensures forall i: nat, b: nat :: i < k ==> LastBytesRead(content, ops, FileRun(content, 0, ops[..k]).0, i, b)
  {
    hide Obeys;
    var log := FileRun(content, 0, ops[..k]).0;
    FileRunObeys(content, ops[..k]);
    forall j | 0 <= j < |log|
      ensures Obeys(content, FileRun(content, 0, ops[..j]).1, ops[j], FileRun(content, 0, ops[..j + 1]).1, log[j])
    {
      assert ops[..k][..j] == ops[..j] && ops[..k][..j + 1] == ops[..j + 1];
    }
    forall i: nat, b: nat | i < k ensures LastBytesRead(content, ops, log, i, b) {
      assert LastBytesRead(content, ops[..k], log, i, b);
    }
  }

  lemma {:induction false} FileRunPrefix(content: Bytes, pos: nat, ops: seq<ReaderOp>, k: nat)
    requires pos <= |content| && k <= |ops|
    ensures FileRun(content, pos, ops[..k]).0 == FileRun(content, pos, ops).0[..k]
    decreases |ops|
  {
    var n := |ops| - 1;
    if k < |ops| {
      FileRunPrefix(content, pos, ops[..n], k);
      assert ops[..n][..k] == ops[..k];
    } else {
      assert ops[..k] == ops;
    }
  }

  /**
    The two readers, each with its own answers from the client, cannot be told apart: as far as both
    get, they answer the same.
   */
  method RunBoth(content: Bytes, answers: Answers, otherAnswers: Answers, bufferSize: Option<int>, ops: seq<ReaderOp>)
    returns (sequential: seq<Answer>, ranged: seq<Answer>)
    requires HonestAnswers(content, answers) && UncutAnswers(content, answers)
    requires HonestAnswers(content, otherAnswers) && UncutAnswers(content, otherAnswers)
    ensures sequential <= ranged || ranged <= sequential
    ensures OrderlyAnswers(content, answers) ==> |sequential| == |ops|
    ensures OrderlyAnswers(content, otherAnswers) ==> |ranged| == |ops|
  {
    var b, s, q;
    sequential, b, s, q := RunSequential(content, answers, ops);
    ranged, q := RunRanged(content, otherAnswers, bufferSize, ops);
    FileRunPrefix(content, 0, ops, |sequential|);
    FileRunPrefix(content, 0, ops, |ranged|);
  }
}
