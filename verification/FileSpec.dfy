/**
  The abstract file every reader stands for: immutable contents and one position.

  `FileStep` is the reference the readers are compared with.  It knows nothing about buffers,
  streams or requests.
 */
module FileSpec {
  import opened Results
  import opened ByteStreams

  /** SEEK_SET, SEEK_CUR, SEEK_END, and any other integer. */
  datatype Whence = Set | Cur | End | Other

  datatype ReaderOp =
    | Read(size: Option<int>)
    | ReadInto(dest: Bytes)
    | Seek(offset: int, whence: Whence)
    | Tell

  datatype Answer =
    | Data(data: Bytes)
    | Filled(count: nat, dest: Bytes)
    | Position(pos: nat)
    | Nothing
    | Rejected

  /** `dest` after `data` was written over its front. */
  function Overlay(dest: Bytes, data: Bytes): (r: Bytes)
    requires |data| <= |dest|
    ensures |r| == |dest|
  {
    Splice(dest, 0, data)
  }

  /** Bytes from `pos` to the end when no size is given or the size is negative. */
  function ReadResult(content: Bytes, pos: nat, size: Option<int>): Bytes
    requires pos <= |content|
  {
    if size.None? || size.value < 0 then content[pos..] else BytesAt(content, pos, size.value)
  }

  function SeekOrigin(content: Bytes, pos: nat, whence: Whence): nat {
    match whence
    case Cur => pos
    case End => |content|
    case _ => 0
  }

  /** Seeking behind the end stays at the end; a rejected call changes nothing. */
  function FileStep(content: Bytes, pos: nat, op: ReaderOp): (r: (nat, Answer))
    requires pos <= |content|
    ensures r.0 <= |content|
  {
    match op
    case Read(size) =>
      var data := ReadResult(content, pos, size);
      (pos + |data|, Data(data))
    case ReadInto(dest) =>
      var data := BytesAt(content, pos, |dest|);
      (pos + |data|, Filled(|data|, Overlay(dest, data)))
    case Seek(offset, whence) =>
      var target := SeekOrigin(content, pos, whence) + offset;
      if whence.Other? || target < 0 then (pos, Rejected)
      else (Min(target, |content|), Position(Min(target, |content|)))
    case Tell => (pos, Position(pos))
  }

  /**
    An in-memory file as Python's `io.BytesIO` has it: it can be positioned past its end, where it has nothing
    to read, and stops at the start when it is moved back too far.
   */
  function MemoryStep(content: Bytes, pos: nat, op: ReaderOp): (nat, Answer) {
    match op
    case Read(size) =>
      var data := BytesAt(content, pos, if size.None? || size.value < 0 then |content| else size.value);
      (pos + |data|, Data(data))
    case ReadInto(dest) =>
      var data := BytesAt(content, pos, |dest|);
      (pos + |data|, Filled(|data|, Overlay(dest, data)))
    case Seek(offset, whence) =>
      if whence.Other? || (whence.Set? && offset < 0) then (pos, Rejected)
      else
        var target := Max(0, SeekOrigin(content, pos, whence) + offset);
        (target, Position(target))
    case Tell => (pos, Position(pos))
  }

  function MemoryRun(content: Bytes, pos: nat, ops: seq<ReaderOp>): (r: (seq<Answer>, nat))
    ensures |r.0| == |ops|
  {
    if ops == [] then ([], pos)
    else
      var (answers, end) := MemoryRun(content, pos, ops[..|ops| - 1]);
      var (end', answer) := MemoryStep(content, end, ops[|ops| - 1]);
      (answers + [answer], end')
  }

  /** The call did not end: the S3 client failed under it. */
  predicate Failed<T>(r: Result<T>) {
    r.Err? && r.error == S3Exception
  }

  /** A whole run: the answers in order, and where the file ends up. */
  function FileRun(content: Bytes, pos: nat, ops: seq<ReaderOp>): (r: (seq<Answer>, nat))
    requires pos <= |content|
    ensures |r.0| == |ops| && r.1 <= |content|
  {
    if ops == [] then ([], pos)
    else
      var (answers, end) := FileRun(content, pos, ops[..|ops| - 1]);
      var (end', answer) := FileStep(content, end, ops[|ops| - 1]);
      (answers + [answer], end')
  }

  // ---------- the file's law, in plain numbers ----------

  /** What a call at `pos` gives and where it leads, without the definitions above. */
  predicate Obeys(content: Bytes, pos: nat, op: ReaderOp, end: nat, answer: Answer)
    requires pos <= |content|
  {
    match op
    case Tell => end == pos && answer == Position(pos)
    case Read(size) =>
      && answer.Data? && pos <= end <= |content| && answer.data == content[pos..end]
      && (if size.None? || size.value < 0 then end == |content|
          else end == pos + size.value || (end == |content| && pos + size.value > |content|))
    case ReadInto(dest) =>
      && answer.Filled? && pos <= end <= |content| && |answer.dest| == |dest|
      && (end == pos + |dest| || (end == |content| && pos + |dest| > |content|))
      && answer.count == end - pos <= |dest|
      && answer.dest[..answer.count] == content[pos..end] && answer.dest[answer.count..] == dest[answer.count..]
    case Seek(offset, whence) =>
      var target := match whence case Set => offset case Cur => pos + offset case End => |content| + offset case Other => -1;
      if target < 0 then end == pos && answer == Rejected
      else answer == Position(end) && (end == target || (end == |content| && target > |content|)) && end <= |content|
  }

  lemma FileObeys(content: Bytes, pos: nat, op: ReaderOp)
    requires pos <= |content|
    ensures var (end, answer) := FileStep(content, pos, op);
            Obeys(content, pos, op, end, answer)
  {
  }

  /** Every call of the run obeys the law, from one position to the next, starting at nought. */
  ghost predicate RunObeys(content: Bytes, ops: seq<ReaderOp>, log: seq<Answer>) {
    && |log| <= |ops| && FileRun(content, 0, []).1 == 0
    && forall k :: 0 <= k < |log| ==>
                     Obeys(content, FileRun(content, 0, ops[..k]).1, ops[k], FileRun(content, 0, ops[..k + 1]).1, log[k])
  }

  /** Seeking back from the end by `k` and reading to the end gives the last `k` bytes. */
  ghost predicate LastBytesRead(content: Bytes, ops: seq<ReaderOp>, log: seq<Answer>, i: nat, k: nat)
    requires i < |log| <= |ops|
  {
    ops[i].Seek? && ops[i].whence == End && ops[i].offset + k == 0 ==>
      if k > |content| then log[i] == Rejected
      else
        && log[i] == Position(|content| - k)
        && (i + 1 < |log| && ops[i + 1].Read? && (ops[i + 1].size.None? || ops[i + 1].size.value < 0) ==>
              log[i + 1] == Data(content[|content| - k..]))
  }

  lemma {:induction false} FileRunObeys(content: Bytes, ops: seq<ReaderOp>)
    ensures RunObeys(content, ops, FileRun(content, 0, ops).0)
    ensures forall i: nat, k: nat :: i < |ops| ==> LastBytesRead(content, ops, FileRun(content, 0, ops).0, i, k)
    decreases |ops|
  {
    var log := FileRun(content, 0, ops).0;
    forall k | 0 <= k < |log|
      ensures Obeys(content, FileRun(content, 0, ops[..k]).1, ops[k], FileRun(content, 0, ops[..k + 1]).1, log[k])
    {
      FileRunAt(content, ops, k);
      FileObeys(content, FileRun(content, 0, ops[..k]).1, ops[k]);
    }
    forall i: nat, k: nat | i < |ops| ensures LastBytesRead(content, ops, log, i, k) {
      FileRunAt(content, ops, i);
      FileObeys(content, FileRun(content, 0, ops[..i]).1, ops[i]);
      if i + 1 < |ops| {
        FileRunAt(content, ops, i + 1);
        FileObeys(content, FileRun(content, 0, ops[..i + 1]).1, ops[i + 1]);
      }
    }
  }

  /** The `k`-th answer of a run is the one of the `k`-th call at the position before it. */
  lemma {:induction false} FileRunAt(content: Bytes, ops: seq<ReaderOp>, k: nat)
    requires k < |ops|
    ensures var (end, answer) := FileStep(content, FileRun(content, 0, ops[..k]).1, ops[k]);
            FileRun(content, 0, ops).0[k] == answer && FileRun(content, 0, ops[..k + 1]).1 == end
    decreases |ops|
  {
    hide FileStep;
    var n := |ops| - 1;
    assert ops[..k + 1][..k] == ops[..k];
    if k < n {
      FileRunAt(content, ops[..n], k);
      assert ops[..n][..k] == ops[..k] && ops[..n][..k + 1] == ops[..k + 1];
    } else {
      assert ops[..k + 1] == ops;
    }
  }
}
