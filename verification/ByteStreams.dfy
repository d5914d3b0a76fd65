/**
  The bytes of one S3 object and the streams that deliver them.

  A stream hands out the body parts that the native client produced for one request.  Nothing is
  assumed about how a response is cut into parts (empty parts included), and the parts may even
  arrive out of order: `GetObjectStream.Next` is the code that notices.
 */
module ByteStreams {
  import opened Results

  newtype byte = b: int | 0 <= b < 0x100
  type Bytes = seq<byte>

  // ---------- sequences of segments ----------

  function Flatten<T>(segments: seq<seq<T>>): seq<T> {
    if segments == [] then [] else segments[0] + Flatten(segments[1..])
  }

  /** The sum of a list of byte counts. */
  function Sum(counts: seq<nat>): nat {
    if counts == [] then 0 else Sum(counts[..|counts| - 1]) + counts[|counts| - 1]
  }

  lemma SumAppend(counts: seq<nat>, count: nat)
    ensures Sum(counts + [count]) == Sum(counts) + count
  {
    assert (counts + [count])[..|counts|] == counts;
  }

  lemma {:induction false} SumConcat(a: seq<nat>, b: seq<nat>)
    ensures Sum(a + b) == Sum(a) + Sum(b)
    decreases |b|
  {
    if b == [] {
      assert a + b == a;
    } else {
      var n := |b| - 1;
      assert a + b == (a + b[..n]) + [b[n]];
      SumAppend(a + b[..n], b[n]);
      SumConcat(a, b[..n]);
    }
  }

  lemma {:induction false} FlattenConcat<T>(left: seq<seq<T>>, right: seq<seq<T>>)
    ensures Flatten(left + right) == Flatten(left) + Flatten(right)
  {
    if left == [] {
      assert left + right == right;
    } else {
      assert (left + right)[1..] == left[1..] + right;
      FlattenConcat(left[1..], right);
    }
  }

  lemma FlattenAppend<T>(segments: seq<seq<T>>, last: seq<T>)
    ensures Flatten(segments + [last]) == Flatten(segments) + last
  {
    FlattenConcat(segments, [last]);
    assert Flatten([last]) == last;
  }

  /** Segment `i` sits in the flat sequence right behind the segments before it. */
  lemma FlattenSegment<T>(segments: seq<seq<T>>, i: nat)
    requires i < |segments|
    ensures |Flatten(segments[..i + 1])| == |Flatten(segments[..i])| + |segments[i]| <= |Flatten(segments)|
    ensures Flatten(segments)[|Flatten(segments[..i])|..|Flatten(segments[..i + 1])|] == segments[i]
  {
    assert segments == segments[..i + 1] + segments[i + 1..];
    FlattenConcat(segments[..i + 1], segments[i + 1..]);
    assert segments[..i + 1] == segments[..i] + [segments[i]];
    FlattenAppend(segments[..i], segments[i]);
  }

  /** Up to `n` bytes from `pos`: what a file holding `data` returns for a read of size `n`. */
  function BytesAt(data: Bytes, pos: nat, n: nat): (r: Bytes)
    ensures |r| == if pos < |data| then Min(n, |data| - pos) else 0
  {
    if pos >= |data| then [] else data[pos..Min(pos + n, |data|)]
  }

  lemma SliceOfSlice(data: Bytes, lo: nat, hi: nat, a: nat, b: nat)
    requires lo <= hi <= |data| && a <= b <= hi - lo
    ensures data[lo..hi][a..b] == data[lo + a..lo + b]
  {
    var part := data[lo..hi][a..b];
    assert forall k :: 0 <= k < b - a ==> part[k] == data[lo + a + k];
  }

  lemma SliceConcat(data: Bytes, a: nat, b: nat, c: nat)
    requires a <= b <= c <= |data|
    ensures data[a..c] == data[a..b] + data[b..c]
  {
  }

  /** Reading inside a slice is reading the whole from a shifted position. */
  lemma BytesAtSlice(data: Bytes, lo: nat, hi: nat, pos: nat, n: nat)
    requires lo <= pos && pos + n <= hi <= |data|
    ensures BytesAt(data[lo..hi], pos - lo, n) == data[pos..pos + n]
  {
    if n > 0 {
      SliceOfSlice(data, lo, hi, pos - lo, pos - lo + n);
    }
  }

  function Min(a: int, b: int): int { if a <= b then a else b }
  function Max(a: int, b: int): int { if a >= b then a else b }

  /** `dest` with `data` written over it from `at` on. */
  function Splice(dest: Bytes, at: nat, data: Bytes): Bytes
    requires at + |data| <= |dest|
  {
    dest[..at] + data + dest[at + |data|..]
  }

  lemma SpliceTwice(dest: Bytes, at: nat, a: Bytes, b: Bytes)
    requires at + |a| + |b| <= |dest|
    ensures Splice(Splice(dest, at, a), at + |a|, b) == Splice(dest, at, a + b)
  {
  }

  /** Slice assignment into a memoryview: `dest[at:at+len(src)] = src`. */
  method CopySlice(dest: array<byte>, at: nat, src: Bytes)
    requires at + |src| <= dest.Length
    modifies dest
    ensures dest[..at + |src|] == old(dest[..at]) + src
    ensures dest[at + |src|..] == old(dest[at + |src|..])
    ensures dest[..] == Splice(old(dest[..]), at, src)
  {
    forall k | at <= k < at + |src| {
      dest[k] := src[k - at];
    }
  }

  // ---------- body parts ----------

  datatype BodyPart = BodyPart(offset: nat, data: Bytes)

  datatype Request = Whole | Bounded(start: nat, end: nat)

  function RequestStart(r: Request): nat {
    match r case Whole => 0 case Bounded(start, _) => start
  }

  /** Where the response to `r` ends: the requested end, clipped to the object. */
  function RequestLimit(content: Bytes, r: Request): nat {
    match r
    case Whole => |content|
    case Bounded(start, end) => Max(start, Min(end, |content|))
  }

  /** The part carries the object's own bytes at its offset, and stays within the request. */
  predicate Honest(content: Bytes, limit: nat, part: BodyPart) {
    part.offset + |part.data| <= Min(limit, |content|)
    && part.data == content[part.offset..part.offset + |part.data|]
  }

  ghost predicate HonestParts(content: Bytes, limit: nat, parts: seq<BodyPart>) {
    forall part <- parts :: Honest(content, limit, part)
  }

  /** The parts follow each other without gap or overlap from `offset` up to `limit`. */
  predicate InOrder(parts: seq<BodyPart>, offset: nat, limit: nat) {
    if parts == [] then offset == limit
    else parts[0].offset == offset && InOrder(parts[1..], offset + |parts[0].data|, limit)
  }

  function Payloads(parts: seq<BodyPart>): (r: seq<Bytes>)
    ensures |r| == |parts|
  {
    seq(|parts|, i requires 0 <= i < |parts| => parts[i].data)
  }

  /** What iterating over a stream gives: all payloads joined, or an error at the first part out of order. */
  function Joined(parts: seq<BodyPart>, offset: nat): Result<Bytes> {
    if parts == [] then Ok([])
    else if parts[0].offset != offset then Err(S3Exception)
    else
      var rest := Joined(parts[1..], offset + |parts[0].data|);
      if rest.Ok? then Ok(parts[0].data + rest.value) else rest
  }

  /**
    However the client orders, duplicates or drops parts, a stream that is read to its end without
    an error delivered a contiguous slice of the object starting at the requested offset; and the
    error is raised exactly when the parts do not line up.
   */
  lemma {:induction false} JoinedIsContiguous(content: Bytes, limit: nat, parts: seq<BodyPart>, offset: nat)
    requires HonestParts(content, limit, parts)
    ensures forall end: nat :: InOrder(parts, offset, end) ==>
                                 Joined(parts, offset).Ok? && end == offset + |Joined(parts, offset).value|
    ensures Joined(parts, offset).Ok? ==>
              var data := Joined(parts, offset).value;
              InOrder(parts, offset, offset + |data|) &&
              (parts != [] ==> offset + |data| <= |content| && data == content[offset..offset + |data|])
  {
    if parts != [] {
      assert parts[0] in parts;
      JoinedIsContiguous(content, limit, parts[1..], offset + |parts[0].data|);
    }
  }

  /** Unless a part out of order comes first, the parts reach `limit`: the response does not end early unnoticed. */
  predicate Unabridged(parts: seq<BodyPart>, offset: nat, limit: nat) {
    if parts == [] then offset == limit
    else parts[0].offset == offset ==> Unabridged(parts[1..], offset + |parts[0].data|, limit)
  }

  /** In other words: whoever joins the parts gets all of them or an error. */
  lemma {:induction false} UnabridgedMeans(parts: seq<BodyPart>, offset: nat, limit: nat)
    ensures Unabridged(parts, offset, limit) <==> (Joined(parts, offset).Ok? ==> offset + |Joined(parts, offset).value| == limit)
    ensures InOrder(parts, offset, limit) <==> Unabridged(parts, offset, limit) && Joined(parts, offset).Ok?
  {
    if parts != [] {
      UnabridgedMeans(parts[1..], offset + |parts[0].data|, limit);
    }
  }

  /** Honest parts alone may end early: a stream that delivers nothing of one byte and reports no error. */
  lemma HonestCanEndEarly()
    ensures HonestParts([7], 1, []) && Joined([], 0) == Ok([]) && !Unabridged([], 0, 1)
  {
  }

  // ---------- laziness ----------

  /** `k` is the least number of leading chunks that reach `demand`, or all of them if none does. */
  ghost predicate IsFewest(chunks: seq<Bytes>, demand: nat, k: nat) {
    && k <= |chunks|
    && (k < |chunks| ==> demand <= |Flatten(chunks[..k])|)
    && AllShort(chunks, demand, k)
  }

  ghost predicate AllShort(chunks: seq<Bytes>, demand: nat, k: nat)
    requires k <= |chunks|
  {
    forall j :: 0 <= j < k ==> |Flatten(chunks[..j])| < demand
  }

  /** There is only one such number. */
  lemma FewestIsUnique(chunks: seq<Bytes>, demand: nat, j: nat, k: nat)
    requires IsFewest(chunks, demand, j) && IsFewest(chunks, demand, k)
    ensures j == k
  {
  }

  /** `__next__`'s three outcomes. */
  datatype Delivery = Chunk(data: Bytes) | Exhausted | OutOfOrder

  class GetObjectStream {
    var nextParts: seq<BodyPart>  // what the native client has still to hand over
    var offset: nat
    ghost const content: Bytes
    ghost const limit: nat
    ghost const parts: seq<BodyPart>  // the whole response
    ghost const start: nat
    ghost var taken: nat              // how many parts were delivered
    ghost var lastStart: nat          // where the last of them started

    ghost predicate Valid()
      reads this
    {
      HonestParts(content, limit, nextParts) && offset <= limit
    }

    /** The rest of the response is complete and in order, so no error lies ahead. */
    ghost predicate Orderly()
      reads this
    {
      InOrder(nextParts, offset, limit)
    }

    /** What was delivered is the front of the response. */
    ghost predicate OnTrack()
      reads this
    {
      && taken <= |parts| && nextParts == parts[taken..]
      && start <= lastStart <= offset == start + |Flatten(Payloads(parts)[..taken])|
      && forall j :: 0 <= j < taken ==> start + |Flatten(Payloads(parts)[..j])| <= lastStart
    }

    lemma DeliveredSoFar()
      requires OnTrack()
      ensures taken <= |Payloads(parts)| && offset == start + |Flatten(Payloads(parts)[..taken])|
    {
    }

    /** A stream whose last chunk started before an offset it has reached, took no chunk too many for it. */
    lemma TookFewest(reached: nat)
      requires OnTrack() && start <= reached <= offset && lastStart < reached
      ensures IsFewest(Payloads(parts), reached - start, taken)
    {
    }

    /** The rest of the response does not end early unless an error comes first. */
    ghost predicate Uncut()
      reads this
    {
      Unabridged(nextParts, offset, limit)
    }

    constructor (nextParts: seq<BodyPart>, startOffset: nat, ghost content: Bytes, ghost limit: nat)
      requires HonestParts(content, limit, nextParts) && startOffset <= limit
      ensures Valid()
      ensures this.nextParts == nextParts && offset == startOffset
      ensures this.content == content && this.limit == limit
      ensures OnTrack() && parts == nextParts && start == lastStart == startOffset
    {
      this.nextParts := nextParts;
      this.offset := startOffset;
      this.content := content;
      this.limit := limit;
      parts, start, taken, lastStart := nextParts, startOffset, 0, startOffset;
      new;
      assert Payloads(parts)[..0] == [];
    }

    /** A delivered chunk is the object's bytes from the old offset to the new one. */
    method Next() returns (r: Delivery)
      requires Valid()
      modifies this
      ensures Valid()
      ensures r.Exhausted? <==> old(nextParts) == []
      ensures r.OutOfOrder? <==> old(nextParts) != [] && old(nextParts)[0].offset != old(offset)
      ensures r.Exhausted? ==> nextParts == [] && offset == old(offset)
      ensures old(nextParts) != [] ==> nextParts == old(nextParts)[1..]
      ensures r.OutOfOrder? ==> offset == old(offset)
      ensures r.Chunk? ==>
                && r.data == old(nextParts)[0].data
                && offset == old(offset) + |r.data| <= Min(limit, |content|)
                && r.data == content[old(offset)..offset]
      ensures old(OnTrack()) && !r.OutOfOrder? ==> OnTrack()
      ensures lastStart == if r.Chunk? then old(offset) else old(lastStart)
      ensures old(Orderly()) ==> Orderly() && !r.OutOfOrder?
      ensures old(Orderly()) && r.Exhausted? ==> offset == limit
      ensures old(Uncut()) && !r.OutOfOrder? ==> Uncut()
      ensures old(Uncut()) && r.Exhausted? ==> offset == limit
    {
      if nextParts == [] {
        return Exhausted;
      }
      ghost var onTrack := OnTrack();
      var part := nextParts[0];
      assert part in nextParts;
      nextParts := nextParts[1..];
      if part.offset != offset {
        return OutOfOrder;
      }
      if onTrack {
        assert part == parts[taken];
        assert Payloads(parts)[..taken + 1] == Payloads(parts)[..taken] + [part.data];
        FlattenAppend(Payloads(parts)[..taken], part.data);
      }
      taken, lastStart := taken + 1, offset;
      offset := offset + |part.data|;
      return Chunk(part.data);
    }
  }

  /** How the native client answers the n-th request: an arbitrary parameter of every theorem. */
  type Answers = (nat, Request) -> seq<BodyPart>

  ghost predicate HonestAnswers(content: Bytes, answers: Answers) {
    forall n: nat, r: Request :: HonestParts(content, RequestLimit(content, r), answers(n, r))
  }

  /** Every response is complete and in order, whatever its chunking. */
  ghost predicate OrderlyAnswers(content: Bytes, answers: Answers) {
    forall n: nat, r: Request :: InOrder(answers(n, r), RequestStart(r), RequestLimit(content, r))
  }

  /** No response ends early without an error. */
  ghost predicate UncutAnswers(content: Bytes, answers: Answers) {
    forall n: nat, r: Request :: Unabridged(answers(n, r), RequestStart(r), RequestLimit(content, r))
  }

  lemma OrderlyIsUncut(content: Bytes, answers: Answers)
    requires OrderlyAnswers(content, answers)
    ensures UncutAnswers(content, answers)
  {
    forall n: nat, r: Request ensures Unabridged(answers(n, r), RequestStart(r), RequestLimit(content, r)) {
      UnabridgedMeans(answers(n, r), RequestStart(r), RequestLimit(content, r));
    }
  }

  /** `get_object_info` and `get_stream`, bound to one object, with a log of the requests made. */
  class ObjectStore {
    const content: Bytes
    const answers: Answers
    var requests: seq<Request>

    ghost predicate Valid() {
      HonestAnswers(content, answers)
    }

    ghost predicate Orderly() {
      OrderlyAnswers(content, answers)
    }

    ghost predicate Uncut() {
      UncutAnswers(content, answers)
    }

    constructor (content: Bytes, answers: Answers)
      requires HonestAnswers(content, answers)
      ensures Valid()
      ensures this.content == content && this.answers == answers && requests == []
    {
      this.content := content;
      this.answers := answers;
      this.requests := [];
    }

    method GetObjectSize() returns (size: nat)
      ensures size == |content|
    {
      size := |content|;
    }

    method GetStream(r: Request) returns (stream: GetObjectStream)
      requires Valid()
      modifies this`requests
      ensures fresh(stream) && stream.Valid()
      ensures requests == old(requests) + [r]
      ensures stream.content == content && stream.limit == RequestLimit(content, r)
      ensures stream.offset == RequestStart(r)
      ensures stream.nextParts == answers(|old(requests)|, r)
      ensures stream.OnTrack() && stream.parts == stream.nextParts && stream.start == stream.lastStart == stream.offset
      ensures Orderly() ==> stream.Orderly()
      ensures Uncut() ==> stream.Uncut()
    {
      stream := new GetObjectStream(answers(|requests|, r), RequestStart(r), content, RequestLimit(content, r));
      requests := requests + [r];
    }
  }
}
