/**
  Whole runs of the DCP-optimised reader: which runs succeed, what they return, what they request.
 */
module DcpRuns {
  import opened Results
  import opened ByteStreams
  import opened FileSpec
  import opened RangeGroups
  import opened DcpSpec
  import opened DcpReaders

  /** A run of successful calls, or `None` if some call raises. */
  ghost function DcpRun(content: Bytes, items: seq<ItemRange>, limit: GapLimit, st: DcpState,
                        ops: seq<DcpOp>): Option<(DcpState, seq<Answer>)>
    requires Acceptable(items) && Sound(content, items, st)
    decreases |ops|
  {
    if ops == [] then Some((st, []))
    else
      var step := DcpStep(content, items, limit, st, ops[0]);
      if step.None? then None
      else
        StepIsSound(content, items, limit, st, ops[0]);
        var rest := DcpRun(content, items, limit, step.value.0, ops[1..]);
        Prepend([step.value.1], rest)
  }

  function Prepend(answers: seq<Answer>, run: Option<(DcpState, seq<Answer>)>): Option<(DcpState, seq<Answer>)> {
    if run.None? then None else Some((run.value.0, answers + run.value.1))
  }

  lemma PrependTwice(a: seq<Answer>, b: seq<Answer>, run: Option<(DcpState, seq<Answer>)>)
    ensures Prepend(a, Prepend(b, run)) == Prepend(a + b, run)
  {
    if run.Some? { assert a + (b + run.value.1) == (a + b) + run.value.1; }
  }

  lemma PrependNothing(run: Option<(DcpState, seq<Answer>)>)
    ensures Prepend([], run) == run
  {
    if run.Some? { assert [] + run.value.1 == run.value.1; }
  }

  lemma RunSingle(content: Bytes, items: seq<ItemRange>, limit: GapLimit, st: DcpState, op: DcpOp)
    requires Acceptable(items) && Sound(content, items, st)
    ensures var step := DcpStep(content, items, limit, st, op);
            DcpRun(content, items, limit, st, [op]) ==
            if step.None? then None else Some((step.value.0, [step.value.1]))
  {
    assert [op][1..] == [];
    StepIsSound(content, items, limit, st, op);
    var step := DcpStep(content, items, limit, st, op);
    if step.Some? { assert [step.value.1] + [] == [step.value.1]; }
  }

  /** The current item never moves back and never skips one; only a loaded item can be left. */
  lemma StepIsSound(content: Bytes, items: seq<ItemRange>, limit: GapLimit, st: DcpState, op: DcpOp)
    requires Acceptable(items) && Sound(content, items, st)
    ensures var step := DcpStep(content, items, limit, st, op);
            step.Some? ==> && Sound(content, items, step.value.0)
                           && st.index <= step.value.0.index <= st.index + 1
                           && (step.value.0.index == st.index + 1 ==> st.loaded && step.value.0.loaded)
  {
  }

  lemma {:induction false} RunAppend(content: Bytes, items: seq<ItemRange>, limit: GapLimit, st: DcpState,
                                     ops: seq<DcpOp>, more: seq<DcpOp>)
    requires Acceptable(items) && Sound(content, items, st)
    ensures var first := DcpRun(content, items, limit, st, ops);
            && (first.Some? ==> Sound(content, items, first.value.0))
            && DcpRun(content, items, limit, st, ops + more) ==
               if first.None? then None else Prepend(first.value.1, DcpRun(content, items, limit, first.value.0, more))
    decreases |ops|
  {
    if ops == [] {
      assert ops + more == more;
      PrependNothing(DcpRun(content, items, limit, st, more));
    } else {
      assert (ops + more)[1..] == ops[1..] + more;
      StepIsSound(content, items, limit, st, ops[0]);
      var step := DcpStep(content, items, limit, st, ops[0]);
      if step.Some? {
        RunAppend(content, items, limit, step.value.0, ops[1..], more);
        var first := DcpRun(content, items, limit, step.value.0, ops[1..]);
        if first.Some? {
          PrependTwice([step.value.1], first.value.1, DcpRun(content, items, limit, first.value.0, more));
        }
      }
    }
  }

  /** A successful run has only successful prefixes. */
  lemma RunPrefix(content: Bytes, items: seq<ItemRange>, limit: GapLimit, st: DcpState, ops: seq<DcpOp>, k: nat)
    requires Acceptable(items) && Sound(content, items, st) && k <= |ops|
    requires DcpRun(content, items, limit, st, ops).Some?
    ensures DcpRun(content, items, limit, st, ops[..k]).Some?
  {
    assert ops == ops[..k] + ops[k..];
    RunAppend(content, items, limit, st, ops[..k], ops[k..]);
  }

  // ---------- agreement with a file in memory ----------

  /** How many bytes the call asks for at the current position. */
  function Asked(op: DcpOp): nat {
    match op
    case Io(Read(size)) => if size.Some? && size.value > 0 then size.value else 0
    case Io(ReadInto(dest)) => |dest|
    case _ => 0
  }

  /** Where the call takes the position, when it succeeds. */
  function Moved(pos: nat, op: DcpOp): nat {
    match op
    case Io(Seek(offset, whence)) => Max(0, if whence.Cur? then pos + offset else offset)
    case _ => pos + Asked(op)
  }

  function MovedBy(pos: nat, ops: seq<DcpOp>): nat
    decreases |ops|
  {
    if ops == [] then pos else MovedBy(Moved(pos, ops[0]), ops[1..])
  }

  function AsDcp(ops: seq<ReaderOp>): (r: seq<DcpOp>)
    ensures |r| == |ops|
  {
    seq(|ops|, i requires 0 <= i < |ops| => Io(ops[i]))
  }

  /** The two files, side by side with one successful call of the reader. */
  lemma StepAgrees(content: Bytes, items: seq<ItemRange>, limit: GapLimit, st: DcpState, op: ReaderOp)
    requires Acceptable(items) && Sound(content, items, st) && DcpStep(content, items, limit, st, Io(op)).Some?
    ensures var (after, answer) := DcpStep(content, items, limit, st, Io(op)).value;
            && after.position == Moved(st.position, Io(op))
            && MemoryStep(content, st.position, op) == (after.position, answer)
            && (st.position <= |content| ==>
                  (FileStep(content, st.position, op) == (after.position, answer) <==> after.position <= |content|))
            && (st.position <= |content| < after.position ==> FileStep(content, st.position, op).1 != answer)
  {
    match op {
      case Read(size) =>
        assert size.value == 0 ==> BytesAt(content, st.position, 0) == [];
      case ReadInto(dest) =>
        var data := content[st.position..st.position + |dest|];
        assert BytesAt(content, st.position, |dest|) == data;
        assert Overlay(dest, data) == data;
      case _ =>
    }
  }

  /** The last call of a run, and the run before it. */
  lemma RunLast(content: Bytes, items: seq<ItemRange>, limit: GapLimit, ops: seq<ReaderOp>)
    requires Acceptable(items) && items != [] && ops != []
    requires DcpRun(content, items, limit, FRESH, AsDcp(ops)).Some?
    ensures var before := DcpRun(content, items, limit, FRESH, AsDcp(ops[..|ops| - 1]));
            && before.Some? && Sound(content, items, before.value.0)
            && var step := DcpStep(content, items, limit, before.value.0, Io(ops[|ops| - 1]));
            && step.Some?
            && DcpRun(content, items, limit, FRESH, AsDcp(ops)) == Some((step.value.0, before.value.1 + [step.value.1]))
  {
    var n := |ops| - 1;
    assert AsDcp(ops) == AsDcp(ops[..n]) + [Io(ops[n])];
    RunAppend(content, items, limit, FRESH, AsDcp(ops[..n]), [Io(ops[n])]);
    RunSingle(content, items, limit, DcpRun(content, items, limit, FRESH, AsDcp(ops[..n])).value.0, Io(ops[n]));
  }

  /** Every successful run is a run on an in-memory file that holds the object. */
  lemma {:induction false} RunAgreesWithMemory(content: Bytes, items: seq<ItemRange>, limit: GapLimit,
                                               ops: seq<ReaderOp>)
    requires Acceptable(items) && items != [] && DcpRun(content, items, limit, FRESH, AsDcp(ops)).Some?
    ensures var run := DcpRun(content, items, limit, FRESH, AsDcp(ops)).value;
            && |run.1| == |ops| && MemoryRun(content, 0, ops) == (run.1, run.0.position)
    decreases |ops|
  {
    if ops != [] {
      var n := |ops| - 1;
      RunLast(content, items, limit, ops);
      RunAgreesWithMemory(content, items, limit, ops[..n]);
      StepAgrees(content, items, limit, DcpRun(content, items, limit, FRESH, AsDcp(ops[..n])).value.0, ops[n]);
    }
  }

  lemma {:induction false} MovedByLast(pos: nat, ops: seq<DcpOp>, op: DcpOp)
    ensures MovedBy(pos, ops + [op]) == Moved(MovedBy(pos, ops), op)
    decreases |ops|
  {
    if ops == [] {
      assert MovedBy(Moved(pos, op), []) == Moved(pos, op);
    } else {
      assert (ops + [op])[1..] == ops[1..] + [op];
      MovedByLast(Moved(pos, ops[0]), ops[1..], op);
    }
  }

  /** The position after each of the calls, computed from the calls alone, is at most `size`. */
  ghost predicate StaysWithin(size: nat, ops: seq<ReaderOp>) {
    forall k :: 0 <= k <= |ops| ==> MovedBy(0, AsDcp(ops[..k])) <= size
  }

  lemma StaysWithinLast(size: nat, ops: seq<ReaderOp>)
    requires ops != []
    ensures var n := |ops| - 1;
            && MovedBy(0, AsDcp(ops)) == Moved(MovedBy(0, AsDcp(ops[..n])), Io(ops[n]))
            && (StaysWithin(size, ops) <==> StaysWithin(size, ops[..n]) && MovedBy(0, AsDcp(ops)) <= size)
  {
    var n := |ops| - 1;
    assert AsDcp(ops) == AsDcp(ops[..n]) + [Io(ops[n])] && ops[..|ops|] == ops;
    MovedByLast(0, AsDcp(ops[..n]), Io(ops[n]));
    forall k | 0 <= k <= n ensures ops[..n][..k] == ops[..k] {}
  }

  /**
    The other readers' file stays at its end when it is moved past it.  A successful run is a run on
    such a file exactly when none of its calls moves past the end.
   */
  lemma {:induction false} RunAgreesWithFileIff(content: Bytes, items: seq<ItemRange>, limit: GapLimit,
                                                ops: seq<ReaderOp>)
    requires Acceptable(items) && items != [] && DcpRun(content, items, limit, FRESH, AsDcp(ops)).Some?
    ensures var run := DcpRun(content, items, limit, FRESH, AsDcp(ops)).value;
            && |run.1| == |ops| && run.0.position == MovedBy(0, AsDcp(ops))
            && (FileRun(content, 0, ops).0 == run.1 <==> StaysWithin(|content|, ops))
            && (StaysWithin(|content|, ops) ==> FileRun(content, 0, ops).1 == run.0.position)
    decreases |ops|
  {
    if ops != [] {
      hide StaysWithin, DcpStep, FileStep;
      var n := |ops| - 1;
      RunLast(content, items, limit, ops);
      RunAgreesWithFileIff(content, items, limit, ops[..n]);
      StaysWithinLast(|content|, ops);
      var before := DcpRun(content, items, limit, FRESH, AsDcp(ops[..n])).value;
      StepAgrees(content, items, limit, before.0, ops[n]);
      SameLast(FileRun(content, 0, ops[..n]).0, FileStep(content, FileRun(content, 0, ops[..n]).1, ops[n]).1,
               before.1, DcpStep(content, items, limit, before.0, Io(ops[n])).value.1);
    }
  }

  lemma SameLast<T>(a: seq<T>, x: T, b: seq<T>, y: T)
    ensures |a| == |b| ==> (a + [x] == b + [y] <==> a == b && x == y)
  {
    if |a| == |b| && a + [x] == b + [y] {
      assert a == (a + [x])[..|a|] && b == (b + [y])[..|b|];
      assert x == (a + [x])[|a|] && y == (b + [y])[|b|];
    }
  }

  /** One call that tells the two files apart. */
  lemma SeekPastTheEnd(content: Bytes, items: seq<ItemRange>, limit: GapLimit)
    requires Acceptable(items) && items != []
    ensures var ops := [ReaderOp.Seek(|content| + 1, Set)];
            && DcpRun(content, items, limit, FRESH, AsDcp(ops)) ==
               Some((FRESH.(position := |content| + 1), [Position(|content| + 1)]))
            && FileRun(content, 0, ops) == ([Position(|content|)], |content|)
  {
    var op := ReaderOp.Seek(|content| + 1, Set);
    assert AsDcp([op]) == [Io(op)] && [op][..0] == [];
    RunSingle(content, items, limit, FRESH, Io(op));
    assert FileRun(content, 0, [op][..0]) == ([], 0);
    assert FileStep(content, 0, [op][0]) == (|content|, Position(|content|));
    assert FileRun(content, 0, [op]).0 == [Position(|content|)];
  }

  // ---------- which runs are accepted ----------

  /** Item `i` lies right behind more of a gap than the limit allows, or is the first one. */
  lemma StartsGroupMeans(items: seq<ItemRange>, limit: GapLimit, i: nat)
    requires i < |items|
    ensures StartsGroup(items, limit, i) <==>
            i == 0 || (limit.AtMost? && items[i].start - items[i - 1].end > limit.n)
  {
  }

  /**
    Which item serves `n` bytes at the position, in plain numbers: the current one if they lie in it, or the
    next one behind a loaded item that ends at the position or before.  An item that is not loaded yet
    must exist in the object, and there must be a stream for it or one to be opened.
   */
  function ServingItem(content: Bytes, items: seq<ItemRange>, limit: GapLimit, st: DcpState, n: nat): Option<nat>
    requires st.index < |items|
  {
    var i, pos := st.index, st.position;
    if items[i].start <= pos && pos + n <= items[i].end then
      var opens := i == 0 || (limit.AtMost? && items[i].start - items[i - 1].end > limit.n);
      if st.loaded || (opens && items[i].end <= |content|) then Some(i) else None
    else if st.loaded && items[i].end <= pos && i + 1 < |items|
            && items[i + 1].start <= pos && pos + n <= items[i + 1].end <= |content| then Some(i + 1)
    else None
  }

  /** What a call does, in plain numbers: when it is accepted, which item it leaves loaded, where it stops. */
  lemma AcceptedIff(content: Bytes, items: seq<ItemRange>, limit: GapLimit, st: DcpState, op: DcpOp)
    requires Acceptable(items) && Sound(content, items, st)
    ensures var step := DcpStep(content, items, limit, st, op);
            match op
            case Close => step.Some? && step.value.0.index == st.index && step.value.0.position == st.position
                          && step.value.0.closed && (st.closed || !step.value.0.loaded)
            case Io(Tell) => step == Some((st, Position(st.position)))
            case Io(Seek(offset, whence)) =>
              if whence.Set? && offset >= 0 then step == Some((st.(position := offset), Position(offset)))
              else if whence.Cur? && st.position + offset >= 0 then
                step == Some((st.(position := st.position + offset), Position(st.position + offset)))
              else step.None?
            case Io(Read(size)) =>
              if size.None? || size.value < 0 then step.None?
              else if size.value == 0 then step == Some((st, Data([])))
              else
                var item := ServingItem(content, items, limit, st, size.value);
                if item.None? then step.None?
                else step == Some((st.(index := item.value, loaded := true, position := st.position + size.value),
                                   Data(content[st.position..st.position + size.value])))
            case Io(ReadInto(dest)) =>
              var item := ServingItem(content, items, limit, st, |dest|);
              if item.None? then step.None?
              else step == Some((st.(index := item.value, loaded := true, position := st.position + |dest|),
                                 Filled(|dest|, content[st.position..st.position + |dest|])))
  {
    StartsGroupMeans(items, limit, st.index);
  }

  /**
    A `readinto` of an empty buffer reads nothing, but it looks for an item all the same.  It is accepted
    exactly when the position lies in or at the edge of the current item, or in the next one behind
    a loaded item that has been passed; if that item is still to be loaded, its bytes must be had.
    A `read(0)` is always accepted and changes nothing.
   */
  lemma EmptyReadIntoIff(content: Bytes, items: seq<ItemRange>, limit: GapLimit, st: DcpState)
    requires Acceptable(items) && Sound(content, items, st)
    ensures var (item, pos) := (items[st.index], st.position);
            DcpStep(content, items, limit, st, Io(ReaderOp.ReadInto([]))).Some? <==>
            if item.start <= pos <= item.end then
              st.loaded || (StartsGroup(items, limit, st.index) && item.end <= |content|)
            else
              st.loaded && item.end < pos && st.index + 1 < |items|
              && items[st.index + 1].start <= pos <= items[st.index + 1].end <= |content|
    ensures var step := DcpStep(content, items, limit, st, Io(ReaderOp.ReadInto([])));
            step.Some? ==>
              step.value.0 ==
              st.(loaded := true, index := if st.position <= items[st.index].end then st.index else st.index + 1)
    ensures DcpStep(content, items, limit, st, Io(ReaderOp.Read(Some(0)))) == Some((st, Data([])))
  {
  }

  /** A fresh reader whose first item does not start at the beginning tells the two apart. */
  lemma EmptyReadIntoCanFail(content: Bytes, limit: GapLimit)
    ensures Acceptable([ItemRange(3, 4)])
    ensures DcpStep(content, [ItemRange(3, 4)], limit, FRESH, Io(ReaderOp.ReadInto([]))).None?
    ensures DcpStep(content, [ItemRange(3, 4)], limit, FRESH, Io(ReaderOp.Read(Some(0)))).Some?
  {
  }

  /** In every successful run the current item starts at the first and advances by nought or one per call. */
  lemma {:induction false} AccessDiscipline(content: Bytes, items: seq<ItemRange>, limit: GapLimit, st: DcpState,
                                            ops: seq<DcpOp>, k: nat)
    requires Acceptable(items) && Sound(content, items, st)
    requires DcpRun(content, items, limit, st, ops).Some? && k < |ops|
    ensures DcpRun(content, items, limit, st, ops[..k]).Some? && DcpRun(content, items, limit, st, ops[..k + 1]).Some?
    ensures var before := DcpRun(content, items, limit, st, ops[..k]).value.0;
            var after := DcpRun(content, items, limit, st, ops[..k + 1]).value.0;
            after.index == before.index || (after.index == before.index + 1 && before.loaded)
  {
    assert ops == ops[..k] + ops[k..] && ops == ops[..k + 1] + ops[k + 1..] && ops[..k + 1] == ops[..k] + [ops[k]];
    RunAppend(content, items, limit, st, ops[..k], ops[k..]);
    RunAppend(content, items, limit, st, ops[..k + 1], ops[k + 1..]);
    RunAppend(content, items, limit, st, ops[..k], [ops[k]]);
    RunSingle(content, items, limit, DcpRun(content, items, limit, st, ops[..k]).value.0, ops[k]);
    var before := DcpRun(content, items, limit, st, ops[..k]).value.0;
    StepIsSound(content, items, limit, before, ops[k]);
  }

  /** Seeks wherever they like, and reads only inside `item`. */
  predicate KeepsTo(item: ItemRange, pos: nat, op: DcpOp) {
    match op
    case Close => false
    case Io(Tell) => true
    case Io(Seek(offset, whence)) => (whence.Set? && offset >= 0) || (whence.Cur? && pos + offset >= 0)
    case Io(Read(size)) => size.Some? && size.value >= 0 && (size.value > 0 ==> item.start <= pos && pos + size.value <= item.end)
    case Io(ReadInto(dest)) => item.start <= pos && pos + |dest| <= item.end
  }

  /** A visit of `item`: any number of calls that keep to it, at least one of them a non-empty read. */
  predicate IsVisit(item: ItemRange, pos: nat, ops: seq<DcpOp>, touched: bool)
    decreases |ops|
  {
    if ops == [] then touched
    else KeepsTo(item, pos, ops[0]) && IsVisit(item, Moved(pos, ops[0]), ops[1..], touched || Asked(ops[0]) > 0)
  }

  /** Visits of items `i`, `i + 1`, ... in turn. */
  predicate VisitsInTurn(items: seq<ItemRange>, i: nat, pos: nat, visits: seq<seq<DcpOp>>)
    decreases |visits|
  {
    visits == []
    || (i < |items| && IsVisit(items[i], pos, visits[0], false)
        && VisitsInTurn(items, i + 1, MovedBy(pos, visits[0]), visits[1..]))
  }

  /** Either item `i` is the current one, or it is the next one and the current one is loaded. */
  ghost predicate Facing(content: Bytes, items: seq<ItemRange>, st: DcpState, i: nat, touched: bool) {
    && Sound(content, items, st) && i < |items| && !st.closed
    && (st.index == i || (st.loaded && st.index + 1 == i))
    && (touched ==> st.loaded && st.index == i)
  }

  lemma KeptStep(content: Bytes, items: seq<ItemRange>, limit: GapLimit, st: DcpState, op: DcpOp, i: nat, touched: bool)
    requires Acceptable(items) && Facing(content, items, st, i, touched) && items[i].end <= |content|
    requires KeepsTo(items[i], st.position, op)
    ensures var step := DcpStep(content, items, limit, st, op);
            && step.Some?
            && Facing(content, items, step.value.0, i, touched || Asked(op) > 0)
            && step.value.0.position == Moved(st.position, op)
  {
    AcceptedIff(content, items, limit, st, op);
    hide DcpStep;
    assert items[i].start < items[i].end;
    if st.index + 1 == i {
      assert items[st.index].end <= items[i].start;
    }
    hide Acceptable;
  }

  lemma {:induction false} VisitAccepted(content: Bytes, items: seq<ItemRange>, limit: GapLimit, st: DcpState,
                                         ops: seq<DcpOp>, i: nat, touched: bool)
    requires Acceptable(items) && Facing(content, items, st, i, touched) && items[i].end <= |content|
    requires IsVisit(items[i], st.position, ops, touched)
    ensures var run := DcpRun(content, items, limit, st, ops);
            && run.Some? && Facing(content, items, run.value.0, i, true)
            && run.value.0.position == MovedBy(st.position, ops)
    decreases |ops|
  {
    if ops != [] {
      KeptStep(content, items, limit, st, ops[0], i, touched);
      var next := DcpStep(content, items, limit, st, ops[0]).value.0;
      VisitAccepted(content, items, limit, next, ops[1..], i, touched || Asked(ops[0]) > 0);
    }
  }

  /** Visiting the items in turn is accepted, and ends with the last visited item loaded. */
  lemma {:induction false} InTurnAccepted(content: Bytes, items: seq<ItemRange>, limit: GapLimit, st: DcpState,
                                          visits: seq<seq<DcpOp>>, i: nat)
    requires Acceptable(items) && (i < |items| ==> Facing(content, items, st, i, false))
    requires Sound(content, items, st)
    requires forall item <- items :: item.end <= |content|
    requires VisitsInTurn(items, i, st.position, visits)
    ensures var run := DcpRun(content, items, limit, st, Flatten(visits));
            && run.Some?
            && (visits != [] ==> run.value.0.loaded && run.value.0.index == i + |visits| - 1)
    decreases |visits|
  {
    if visits != [] {
      assert items[i] in items;
      VisitAccepted(content, items, limit, st, visits[0], i, false);
      var next := DcpRun(content, items, limit, st, visits[0]).value.0;
      RunAppend(content, items, limit, st, visits[0], Flatten(visits[1..]));
      InTurnAccepted(content, items, limit, next, visits[1..], i + 1);
    }
  }

  // ---------- a run on the reader itself ----------

  datatype RunLog = RunLog(answers: seq<Answer>, requests: seq<Request>, reports: seq<nat>)

  predicate NeverCloses(ops: seq<DcpOp>) {
    forall i :: 0 <= i < |ops| ==> ops[i] != Close
  }

  /** The requests of a reader that has loaded the items up to `i`: one per group reached, in order. */
  ghost function RequestsUpTo(items: seq<ItemRange>, limit: GapLimit, i: nat): seq<Request>
    requires Acceptable(items) && i < |items|
  {
    ItemWithinGroup(items, limit, i);
    Opened(Groups(items, limit)[..GroupIndex(items, limit, i) + 1])
  }

  /**
    What was fetched when item `i` is loaded: the groups before its own in full, and of its own group's
    response the fewest leading chunks that reach the item's end.
   */
  ghost predicate FewestFetched(answers: Answers, items: seq<ItemRange>, limit: GapLimit, i: nat, fetched: nat)
    requires Acceptable(items) && i < |items|
  {
    ItemWithinGroup(items, limit, i);
    var g := GroupIndex(items, limit, i);
    var rangeGroup := Groups(items, limit)[g];
    var chunks := Payloads(answers(g, GroupRequest(rangeGroup)));
    var demand := items[i].end - rangeGroup.start;
    var own := fetched - TotalWidth(Groups(items, limit)[..g]);
    SomeReach(chunks, demand, own)
  }

  ghost predicate SomeReach(chunks: seq<Bytes>, demand: int, n: int) {
    exists k: nat :: FewestReach(chunks, demand, k, n)
  }

  /** The first `k` chunks make `n` bytes and reach `demand`, unless there are no more; one chunk less would not. */
  predicate FewestReach(chunks: seq<Bytes>, demand: int, k: nat, n: int) {
    && k <= |chunks| && n == |Flatten(chunks[..k])|
    && (k < |chunks| ==> n >= demand)
    && (k > 0 ==> |Flatten(chunks[..k - 1])| < demand)
  }

  lemma LongerPrefix(chunks: seq<Bytes>, j: nat, k: nat)
    requires j <= k <= |chunks|
    ensures |Flatten(chunks[..j])| <= |Flatten(chunks[..k])|
  {
    assert chunks[..k] == chunks[..j] + chunks[j..k];
    FlattenConcat(chunks[..j], chunks[j..k]);
  }

  /** So the calls that led to an item do not matter for what was fetched. */
  lemma FetchedIsDetermined(answers: Answers, items: seq<ItemRange>, limit: GapLimit, i: nat, fetched: nat,
                            fetched': nat)
    requires Acceptable(items) && i < |items|
    requires FewestFetched(answers, items, limit, i, fetched) && FewestFetched(answers, items, limit, i, fetched')
    ensures fetched == fetched'
  {
    hide Payloads, Groups, GroupIndex, TotalWidth, Flatten;
    ItemWithinGroup(items, limit, i);
    var g := GroupIndex(items, limit, i);
    var rangeGroup := Groups(items, limit)[g];
    var chunks := Payloads(answers(g, GroupRequest(rangeGroup)));
    var demand, before := items[i].end - rangeGroup.start, TotalWidth(Groups(items, limit)[..g]);
    var k: nat :| FewestReach(chunks, demand, k, fetched - before);
    var k': nat :| FewestReach(chunks, demand, k', fetched' - before);
    if k < k' { LongerPrefix(chunks, k, k' - 1); }
    if k' < k { LongerPrefix(chunks, k', k - 1); }
  }

  /** What was requested and fetched when a run that never closes the reader got to `st`. */
  ghost predicate Billed(answers: Answers, items: seq<ItemRange>, limit: GapLimit, st: DcpState,
                         requests: seq<Request>, fetched: nat)
    requires Acceptable(items) && st.index < |items|
  {
    && fetched <= TotalWidth(Groups(items, limit))
    && (st.loaded ==>
          && requests == RequestsUpTo(items, limit, st.index)
          && FewestFetched(answers, items, limit, st.index, fetched))
    && (!st.loaded ==> requests == [] && fetched == 0)
    && (st.loaded && st.index + 1 == |items| ==>
          requests == Opened(Groups(items, limit)) && fetched == TotalWidth(Groups(items, limit)))
  }

  /** The log of a reader whose calls `ops` all succeeded. */
  ghost predicate Logged(content: Bytes, answers: Answers, items: seq<ItemRange>, limit: GapLimit, ops: seq<DcpOp>,
                         log: RunLog)
    requires Acceptable(items) && items != []
  {
    var run := DcpRun(content, items, limit, FRESH, ops);
    && run.Some? && run.value.1 == log.answers && run.value.0.index < |items|
    && (NeverCloses(ops) ==> Billed(answers, items, limit, run.value.0, log.requests, Sum(log.reports)))
  }

  /** A load took no chunk that it could have left. */
  lemma LoadsAreLazy(reader: DCPOptimizedS3Reader)
    requires reader.Valid() && !reader.closed && reader.earlier == [] && reader.currentItemBuffer != null
    ensures Acceptable(reader.itemRanges) && reader.index < |reader.itemRanges|
    ensures FewestFetched(reader.store.answers, reader.itemRanges, reader.maxGapSize, reader.index, Sum(reader.reports))
  {
    hide Groups, TotalWidth, Payloads, Flatten, GroupIndex, Sum, IsFewest, FewestFetched, IsStartTable, Acceptable;
    hide DCPOptimizedS3Reader.StreamInGroup, ObjectStore.Valid;
    reader.TookFewest();
    FewestFrom(reader.store.answers, reader.itemRanges, reader.maxGapSize, reader.index, reader.stream.taken,
               Sum(reader.reports));
  }

  lemma FewestFrom(answers: Answers, items: seq<ItemRange>, limit: GapLimit, i: nat, taken: nat, fetched: nat)
    requires Acceptable(items) && i < |items|
    requires var g := GroupIndex(items, limit, i);
             && g < |Groups(items, limit)| && Groups(items, limit)[g].start <= items[i].end
             && var chunks := Payloads(answers(g, GroupRequest(Groups(items, limit)[g])));
             && IsFewest(chunks, items[i].end - Groups(items, limit)[g].start, taken)
             && fetched == TotalWidth(Groups(items, limit)[..g]) + |Flatten(chunks[..taken])|
    ensures FewestFetched(answers, items, limit, i, fetched)
  {
    hide Groups, TotalWidth, Payloads, Flatten, GroupIndex, IsFewest, Acceptable;
    var g := GroupIndex(items, limit, i);
    var start := Groups(items, limit)[g].start;
    var chunks := Payloads(answers(g, GroupRequest(Groups(items, limit)[g])));
    FewestMeans(chunks, items[i].end - start, taken);
    assert SomeReach(chunks, items[i].end - start, fetched - TotalWidth(Groups(items, limit)[..g]));
  }

  lemma FewestMeans(chunks: seq<Bytes>, demand: nat, k: nat)
    requires IsFewest(chunks, demand, k)
    ensures FewestReach(chunks, demand, k, |Flatten(chunks[..k])|)
  {
  }

  lemma BilledReader(reader: DCPOptimizedS3Reader)
    requires reader.Valid() && !reader.closed && reader.earlier == []
    ensures Acceptable(reader.itemRanges)
    ensures Billed(reader.store.answers, reader.itemRanges, reader.maxGapSize, reader.State(),
                   reader.store.requests, Sum(reader.reports))
  {
    hide FewestFetched, IsFewest, Payloads, Sum, GroupIndex;
    reader.WithinTotal();
    var groups := reader.rangeGroups;
    if reader.currentItemBuffer != null {
      LoadsAreLazy(reader);
      assert [] + Opened(groups[..reader.group + 1]) == Opened(groups[..reader.group + 1]);
      if reader.index + 1 == |reader.itemRanges| {
        ItemWithinGroup(reader.itemRanges, reader.maxGapSize, reader.index);
        OneMoreGroup(groups, reader.group);
        assert groups[..reader.group + 1] == groups;
      }
    }
  }

  /** Performs one call on the reader. */
  method Perform(reader: DCPOptimizedS3Reader, op: DcpOp) returns (r: Result<Answer>)
    requires reader.Valid()
    modifies reader, reader.store`requests, reader.stream, reader.currentItemBuffer
    ensures r.Ok? ==> reader.Valid() && old(reader.Step(op)) == Some((reader.State(), r.value))
    ensures reader.store.Orderly() && r.Err? ==> old(reader.Step(op)).None?
    ensures r.Ok? ==> && (reader.stream == null || fresh(reader.stream) || reader.stream == old(reader.stream))
                      && (reader.currentItemBuffer == null || fresh(reader.currentItemBuffer)
                          || reader.currentItemBuffer == old(reader.currentItemBuffer))
    ensures !reader.closed ==> Sum(reader.reports) <= TotalWidth(reader.rangeGroups)
    ensures op != Close ==> reader.closed == old(reader.closed)
  {
    hide DCPOptimizedS3Reader.Valid, DCPOptimizedS3Reader.Layout;
    reader.WithinTotal();
    match op {
      case Close =>
        reader.Close();
        return Ok(Nothing);
      case Io(Tell) =>
        var p := reader.Tell();
        return Ok(Position(p));
      case Io(Seek(offset, whence)) =>
        var p := reader.Seek(offset, whence);
        return if p.Ok? then Ok(Position(p.value)) else Err(p.error);
      case Io(Read(size)) =>
        var data := reader.Read(size);
        return if data.Ok? then Ok(Data(data.value)) else Err(data.error);
      case Io(ReadInto(initial)) =>
        var dest := new byte[|initial|](i requires 0 <= i < |initial| => initial[i]);
        assert dest[..] == initial;
        var n := reader.ReadInto(dest);
        return if n.Ok? then Ok(Filled(n.value, dest[..])) else Err(n.error);
    }
  }

  lemma RunExtends(content: Bytes, items: seq<ItemRange>, limit: GapLimit, ops: seq<DcpOp>, k: nat)
    requires Acceptable(items) && items != [] && k < |ops|
    ensures ops[..k + 1] == ops[..k] + [ops[k]]
    ensures var before := DcpRun(content, items, limit, FRESH, ops[..k]);
            before.Some? ==>
              && Sound(content, items, before.value.0)
              && var step := DcpStep(content, items, limit, before.value.0, ops[k]);
              DcpRun(content, items, limit, FRESH, ops[..k + 1]) ==
              if step.None? then None else Some((step.value.0, before.value.1 + [step.value.1]))
  {
    assert ops[..k + 1] == ops[..k] + [ops[k]];
    RunAppend(content, items, limit, FRESH, ops[..k], [ops[k]]);
    var before := DcpRun(content, items, limit, FRESH, ops[..k]);
    if before.Some? {
      RunSingle(content, items, limit, before.value.0, ops[k]);
    }
  }

  /** Only `Close` closes. */
  lemma {:induction false} StaysOpen(content: Bytes, items: seq<ItemRange>, limit: GapLimit, st: DcpState,
                                     ops: seq<DcpOp>)
    requires Acceptable(items) && Sound(content, items, st) && !st.closed && NeverCloses(ops)
    ensures var run := DcpRun(content, items, limit, st, ops);
            run.Some? ==> !run.value.0.closed
    decreases |ops|
  {
    if ops != [] {
      StepIsSound(content, items, limit, st, ops[0]);
      var step := DcpStep(content, items, limit, st, ops[0]);
      if step.Some? {
        StaysOpen(content, items, limit, step.value.0, ops[1..]);
      }
    }
  }

  /** The reader has just performed `ops` on its object and gave the answers `done`. */
  ghost predicate Performed(reader: DCPOptimizedS3Reader, ops: seq<DcpOp>, done: seq<Answer>)
    reads reader, reader.store, reader.stream, reader.currentItemBuffer
    requires Acceptable(reader.itemRanges) && reader.itemRanges != []
  {
    && reader.Valid() && reader.earlier == []
    && DcpRun(reader.Content(), reader.itemRanges, reader.maxGapSize, FRESH, ops) == Some((reader.State(), done))
  }

  lemma PerformedIsLogged(reader: DCPOptimizedS3Reader, ops: seq<DcpOp>, done: seq<Answer>)
    requires Acceptable(reader.itemRanges) && reader.itemRanges != [] && Performed(reader, ops, done)
    ensures Logged(reader.Content(), reader.store.answers, reader.itemRanges, reader.maxGapSize, ops,
                   RunLog(done, reader.store.requests, reader.reports))
    ensures NeverCloses(ops) ==> !reader.closed
  {
    if NeverCloses(ops) {
      StaysOpen(reader.Content(), reader.itemRanges, reader.maxGapSize, FRESH, ops);
      BilledReader(reader);
    }
  }

  /** One more call on the reader. */
  method PerformNext(reader: DCPOptimizedS3Reader, ops: seq<DcpOp>, k: nat, done: seq<Answer>)
    returns (r: Option<Answer>)
    requires Acceptable(reader.itemRanges) && reader.itemRanges != [] && k < |ops|
    requires Performed(reader, ops[..k], done)
    modifies reader, reader.store`requests, reader.stream, reader.currentItemBuffer
    ensures r.Some? ==> && Performed(reader, ops[..k + 1], done + [r.value])
                        && (reader.stream == null || fresh(reader.stream) || reader.stream == old(reader.stream))
                        && (reader.currentItemBuffer == null || fresh(reader.currentItemBuffer)
                            || reader.currentItemBuffer == old(reader.currentItemBuffer))
    ensures reader.store.Orderly() && r.None? ==>
              DcpRun(reader.Content(), reader.itemRanges, reader.maxGapSize, FRESH, ops[..k + 1]).None?
    ensures NeverCloses(ops) ==> Sum(reader.reports) <= TotalWidth(reader.rangeGroups)
  {
    hide DCPOptimizedS3Reader.Layout, DCPOptimizedS3Reader.StreamInGroup, DcpRun, DcpStep;
    RunExtends(reader.Content(), reader.itemRanges, reader.maxGapSize, ops, k);
    PerformedIsLogged(reader, ops[..k], done);
    var step := Perform(reader, ops[k]);
    return if step.Ok? then Some(step.value) else None;
  }

  /** Performs calls until one raises, and keeps the answers of those that succeeded. */
  method Drive(reader: DCPOptimizedS3Reader, ops: seq<DcpOp>) returns (log: RunLog)
    requires Acceptable(reader.itemRanges) && reader.itemRanges != [] && Performed(reader, [], [])
    modifies reader, reader.store`requests, reader.stream, reader.currentItemBuffer
    ensures |log.answers| <= |ops|
    ensures Logged(reader.Content(), reader.store.answers, reader.itemRanges, reader.maxGapSize, ops[..|log.answers|], log)
    ensures reader.store.Orderly() && |log.answers| < |ops| ==>
              DcpRun(reader.Content(), reader.itemRanges, reader.maxGapSize, FRESH, ops[..|log.answers| + 1]).None?
    ensures NeverCloses(ops) ==> Sum(reader.reports) <= TotalWidth(reader.rangeGroups)
  {
    hide Performed, Logged, DcpRun, Acceptable, NeverCloses;
    ghost var stream, buffer := reader.stream, reader.currentItemBuffer;
    var done: seq<Answer> := [];
    var k := 0;
    while k < |ops|
      invariant k == |done| <= |ops|
      invariant Performed(reader, ops[..k], done)
      invariant reader.stream == null || fresh(reader.stream) || reader.stream == stream
      invariant reader.currentItemBuffer == null || fresh(reader.currentItemBuffer) || reader.currentItemBuffer == buffer
    {
      PerformedIsLogged(reader, ops[..k], done);
      log := RunLog(done, reader.store.requests, reader.reports);
      var r := PerformNext(reader, ops, k, done);
      if r.None? {
        return;
      }
      done := done + [r.value];
      k := k + 1;
    }
    assert ops[..k] == ops;
    PerformedIsLogged(reader, ops, done);
    log := RunLog(done, reader.store.requests, reader.reports);
    BilledWithinTotal(reader, ops, log);
  }

  lemma BilledWithinTotal(reader: DCPOptimizedS3Reader, ops: seq<DcpOp>, log: RunLog)
    requires Acceptable(reader.itemRanges) && reader.itemRanges != [] && Performed(reader, ops, log.answers)
    ensures NeverCloses(ops) ==> Sum(reader.reports) <= TotalWidth(reader.rangeGroups)
  {
    PerformedIsLogged(reader, ops, log.answers);
    reader.WithinTotal();
  }

  /** The requests are for the first groups of a partition of the items that obeys the limit, in order. */
  ghost predicate RequestedInBounds(items: seq<ItemRange>, limit: GapLimit, requests: seq<Request>) {
    var groups := Groups(items, limit);
    && InBounds(groups, items, limit) && |requests| <= |groups|
    && forall g :: 0 <= g < |requests| ==>
                     requests[g].Bounded? && requests[g].start == groups[g].start && requests[g].end == groups[g].end
  }

  lemma OpenedInBounds(items: seq<ItemRange>, limit: GapLimit, k: nat)
    requires Acceptable(items) && k <= |Groups(items, limit)|
    ensures RequestedInBounds(items, limit, Opened(Groups(items, limit)[..k]))
  {
    hide InBounds, Groups;
    var groups := Groups(items, limit);
    GroupsInBounds(items, limit);
    GroupBounds(items, limit);
    forall g | 0 <= g < |groups| ensures 0 <= groups[g].start < groups[g].end { assert groups[g] in groups; }
  }

  lemma BoundsOfRequests(content: Bytes, answers: Answers, items: seq<ItemRange>, limit: GapLimit, ops: seq<DcpOp>,
                         log: RunLog)
    requires Acceptable(items) && items != [] && NeverCloses(ops) && Logged(content, answers, items, limit, ops, log)
    ensures RequestedInBounds(items, limit, log.requests)
  {
    hide InBounds, FewestFetched, TotalWidth, DcpRun, Groups, RequestedInBounds, GroupIndex;
    var st := DcpRun(content, items, limit, FRESH, ops).value.0;
    if st.loaded {
      ItemWithinGroup(items, limit, st.index);
      OpenedInBounds(items, limit, GroupIndex(items, limit, st.index) + 1);
    } else {
      OpenedInBounds(items, limit, 0);
    }
  }

  /**
    The whole-run theorem.  Over any object, any honest answers of the S3 client, any list of ranges
    and any calls: the reader exists exactly for a named object and an acceptable list, every successful run returns
    exactly what `DcpSpec` says (the object's own bytes), and a run that is never closed requests
    each range group once, in order, and never fetches more than the announced total.  When every
    response is complete and in order, the run stops only where `DcpSpec` raises.
   */
  method RunDcpReader(content: Bytes, answers: Answers, bucket: string, key: string, ranges: seq<ItemRange>,
                      limit: GapLimit,
                      ops: seq<DcpOp>) returns (log: Option<RunLog>, peak: nat)
    requires HonestAnswers(content, answers)
    ensures log.Some? <==> bucket != "" && key != "" && (limit.Unlimited? || limit.n >= 0) && Servable(ranges)
    ensures log.Some? ==>
              && |log.value.answers| <= |ops|
              && Logged(content, answers, NonEmpty(ranges), limit, ops[..|log.value.answers|], log.value)
              && (OrderlyAnswers(content, answers) && |log.value.answers| < |ops| ==>
                    DcpRun(content, NonEmpty(ranges), limit, FRESH, ops[..|log.value.answers| + 1]).None?)
              && (NeverCloses(ops) ==> peak <= TotalWidth(Groups(NonEmpty(ranges), limit)))
              && (NeverCloses(ops) ==> RequestedInBounds(NonEmpty(ranges), limit, log.value.requests))
  {
    hide DCPOptimizedS3Reader.Valid, NonEmpty, Groups, TotalWidth, DcpStep, Logged, HonestAnswers, OrderlyAnswers;
    hide Acceptable;
    var store := new ObjectStore(content, answers);
    var created := DCPOptimizedS3Reader.Create(store, bucket, key, ranges, limit);
    if created.Err? {
      return None, 0;
    }
    var reader := created.value;
    var done := Drive(reader, ops);
    if NeverCloses(ops) {
      BoundsOfRequests(content, answers, NonEmpty(ranges), limit, ops[..|done.answers|], done);
    }
    return Some(done), Sum(reader.reports);
  }
}
