/**
  The segmented buffer that holds one item (dcp_optimized.py, `_ItemViewBuffer`).

  Segments are immutable byte sequences; the class refines a plain file over their concatenation.
 */
module ItemViewBuffers {
  import opened Results
  import opened ByteStreams
  import opened FileSpec

  /** `bisect.bisect_right`: the insertion point behind every entry that is at most `x`. */
  method BisectRight(a: seq<nat>, x: nat) returns (i: nat)
    requires forall p, q :: 0 <= p < q < |a| ==> a[p] <= a[q]
    ensures i <= |a|
    ensures forall p :: 0 <= p < i ==> a[p] <= x
    ensures forall p :: i <= p < |a| ==> x < a[p]
  {
    i := 0;
    var hi := |a|;
    while i < hi
      invariant i <= hi <= |a|
      invariant forall p :: 0 <= p < i ==> a[p] <= x
      invariant forall p :: hi <= p < |a| ==> x < a[p]
    {
      var mid := (i + hi) / 2;
      if x < a[mid] {
        hi := mid;
      } else {
        i := mid + 1;
      }
    }
  }

  /** Offset of segment `i`: the length of everything before it. */
  ghost function SegmentOffset(segments: seq<Bytes>, i: nat): nat
    requires i <= |segments|
  {
    |Flatten(segments[..i])|
  }

  lemma {:induction false} OffsetsIncrease(segments: seq<Bytes>, i: nat, j: nat)
    requires i <= j <= |segments|
    ensures SegmentOffset(segments, i) <= SegmentOffset(segments, j) <= |Flatten(segments)|
    decreases j - i
  {
    if i < j {
      FlattenSegment(segments, i);
      OffsetsIncrease(segments, i + 1, j);
    } else {
      assert segments == segments[..j] + segments[j..];
      FlattenConcat(segments[..j], segments[j..]);
    }
  }

  /** Bytes `lo..lo+n` of segment `i`, seen from the flat sequence. */
  lemma SegmentSlice(segments: seq<Bytes>, i: nat, lo: nat, n: nat)
    requires i < |segments| && lo + n <= |segments[i]|
    ensures SegmentOffset(segments, i) + lo + n <= |Flatten(segments)|
    ensures segments[i][lo..lo + n] ==
            Flatten(segments)[SegmentOffset(segments, i) + lo..SegmentOffset(segments, i) + lo + n]
  {
    FlattenSegment(segments, i);
    var start := SegmentOffset(segments, i);
    assert segments[i] == Flatten(segments)[start..start + |segments[i]|];
  }

  class ItemViewBuffer {
    var segments: seq<Bytes>
    var offsets: seq<nat>
    var lengths: seq<nat>
    var size: nat
    var pos: nat

    ghost predicate Valid()
      reads this
    {
      && |segments| == |offsets| == |lengths|
      && size == |Flatten(segments)|
      && (forall i :: 0 <= i < |segments| ==> lengths[i] == |segments[i]| > 0)
      && (forall i :: 0 <= i < |segments| ==> offsets[i] == SegmentOffset(segments, i))
    }

    ghost function Contents(): Bytes
      reads this
    {
      Flatten(segments)
    }

    constructor ()
      ensures Valid() && Contents() == [] && pos == 0
    {
      segments, offsets, lengths := [], [], [];
      size, pos := 0, 0;
    }

    method AppendView(view: Bytes)
      requires Valid()
      modifies this
      ensures Valid() && Contents() == old(Contents()) + view && pos == old(pos)
    {
      if |view| == 0 {
        return;
      }
      FlattenAppend(segments, view);
      ghost var before := segments;
      segments := segments + [view];
      offsets := offsets + [size];
      lengths := lengths + [|view|];
      size := size + |view|;
      forall i | 0 <= i < |segments|
        ensures offsets[i] == SegmentOffset(segments, i)
      {
        assert segments[..i] == before[..i];
        assert before[..|before|] == before;
      }
    }

    /** Seeking past the end is allowed, before the start is not. */
    method Seek(offset: int, whence: Whence) returns (r: Result<nat>)
      requires Valid()
      modifies this`pos
      ensures Valid() && Contents() == old(Contents())
      ensures r.Ok? <==> !whence.Other? && (if whence.Set? then 0 else if whence.Cur? then old(pos) else size) + offset >= 0
      ensures r.Ok? ==> pos == r.value == (if whence.Set? then 0 else if whence.Cur? then old(pos) else size) + offset
      ensures r.Err? ==> pos == old(pos)
    {
      var newPos;
      match whence {
        case Set => newPos := offset;
        case Cur => newPos := pos + offset;
        case End => newPos := size + offset;
        case Other => return Err(ValueError);
      }
      if newPos < 0 {
        return Err(AssertionError);
      }
      pos := newPos;
      return Ok(pos);
    }

    /** Segments are adjacent, and the last one ends the buffer. */
    lemma NextSegment(i: nat)
      requires Valid() && i < |segments|
      ensures offsets[i] + lengths[i] == if i + 1 < |segments| then offsets[i + 1] else size
    {
      FlattenSegment(segments, i);
      if i + 1 == |segments| {
        assert segments[..i + 1] == segments;
      }
    }

    /** The segment in front of the insertion point contains the read position. */
    method FindSegment() returns (segIdx: nat)
      requires Valid() && pos < size
      ensures segIdx < |segments| && offsets[segIdx] <= pos < offsets[segIdx] + lengths[segIdx]
    {
      forall p, q | 0 <= p < q < |offsets| ensures offsets[p] <= offsets[q] {
        OffsetsIncrease(segments, p, q);
      }
      assert offsets[0] == 0 by { assert segments[..0] == []; }
      var insertion := BisectRight(offsets, pos);
      segIdx := insertion - 1;
      NextSegment(segIdx);
    }

    /** The copy loop of `readinto`, from segment `first` on. */
    method CopySegments(dest: array<byte>, first: nat, bytesToRead: nat)
      requires Valid() && first < |segments|
      requires offsets[first] <= pos < offsets[first] + lengths[first]
      requires bytesToRead <= dest.Length && pos + bytesToRead <= size
      modifies dest
      ensures dest[..bytesToRead] == Contents()[pos..pos + bytesToRead]
      ensures dest[bytesToRead..] == old(dest[bytesToRead..])
    {
      hide Flatten, SegmentOffset;
      ghost var flat, before := Contents(), dest[..];
      var segIdx, written, from := first, 0, pos;
      while written < bytesToRead
        invariant 0 <= written <= bytesToRead && from == pos + written
        invariant written < bytesToRead ==>
                    0 <= segIdx < |segments| && offsets[segIdx] <= from < offsets[segIdx] + lengths[segIdx]
        invariant dest[..written] == flat[pos..from]
        invariant dest[written..] == before[written..]
      {
        var segStart, seg := offsets[segIdx], segments[segIdx];
        var offsetInSeg := from - segStart;
        var copySize := Min(bytesToRead - written, lengths[segIdx] - offsetInSeg);
        NextSegment(segIdx);
        SegmentSlice(segments, segIdx, offsetInSeg, copySize);
        CopySlice(dest, written, seg[offsetInSeg..offsetInSeg + copySize]);
        assert flat[pos..from + copySize] == flat[pos..from] + flat[from..from + copySize];
        assert before[written + copySize..] == before[written..][copySize..];
        written := written + copySize;
        from := from + copySize;
        segIdx := segIdx + 1;
      }
    }

    /** Copies across segment borders; whatever lies behind the copied bytes stays as it was. */
    method ReadInto(dest: array<byte>) returns (n: nat)
      requires Valid()
      modifies this`pos, dest
      ensures Valid() && Contents() == old(Contents())
      ensures n == |BytesAt(Contents(), old(pos), dest.Length)|
      ensures dest[..n] == BytesAt(Contents(), old(pos), dest.Length)
      ensures dest[n..] == old(dest[n..])
      ensures pos == old(pos) + n
    {
      if dest.Length == 0 || pos >= size {
        return 0;
      }
      var segIdx := FindSegment();
      n := Min(dest.Length, size - pos);
      CopySegments(dest, segIdx, n);
      pos := pos + n;
    }

    /** The four-byte fast path and the general path return the same bytes. */
    method Read(n: Option<int>) returns (r: Result<Bytes>)
      requires Valid()
      modifies this`pos
      ensures Valid() && Contents() == old(Contents())
      ensures r.Ok? <==> n.Some? && n.value >= 0
      ensures r.Ok? ==> r.value == BytesAt(Contents(), old(pos), n.value) && pos == old(pos) + |r.value|
      ensures r.Err? ==> pos == old(pos)
    {
      if n.None? || n.value < 0 {
        return Err(AssertionError);
      }
      var want := n.value;
      if want == 4 && pos == 0 && |lengths| > 0 && lengths[0] >= 4 {
        FlattenSegment(segments, 0);
        assert segments[..0] == [];
        assert Contents()[0..lengths[0]] == segments[0];
        pos := 4;
        return Ok(segments[0][..4]);
      }
      if want == 0 {
        return Ok([]);
      }
      var out := new byte[want](_ => 0);
      var got := ReadInto(out);
      return Ok(if got == want then out[..] else out[..got]);
    }
  }
}
