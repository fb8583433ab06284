/** Upload bodies cut into re-sendable chunks, buffered or streamed. */
module ChunkBody {
  import opened Wrappers

  /** A body cut into pieces of `n` bytes, the last one possibly shorter. */
  function Slices(body: seq<byte>, n: nat): (chunks: seq<seq<byte>>)
    requires n > 0
  {
    if body == [] then []
    else if |body| <= n then [body]
    else [body[..n]] + Slices(body[n..], n)
  }

  /** What slicing promises: nothing lost, every chunk full but the last, and none empty. */
  lemma {:induction false} SlicesCover(body: seq<byte>, n: nat)
    requires n > 0
    ensures Flatten(Slices(body, n)) == body
    ensures forall i | 0 <= i < |Slices(body, n)| :: 0 < |Slices(body, n)[i]| <= n
    ensures forall i | 0 <= i < |Slices(body, n)| - 1 :: |Slices(body, n)[i]| == n
  {
    if |body| > n {
      SlicesCover(body[n..], n);
      assert Slices(body, n)[1..] == Slices(body[n..], n);
      FlattenFirst(Slices(body, n));
    } else if body != [] {
      FlattenMore([], body);
      assert [] + [body] == [body] && Flatten<byte>([]) + body == body;
    }
  }

  /** Chunk `i` is the body from `i * n`. */
  lemma {:induction false} SlicesAt(body: seq<byte>, n: nat, i: nat)
    requires n > 0 && i < |Slices(body, n)|
    ensures i * n < |body|
    ensures Slices(body, n)[i] == body[i * n..if i * n + n <= |body| then i * n + n else |body|]
    ensures (i == |Slices(body, n)| - 1) <==> i * n + n >= |body|
  {
    if |body| > n && i > 0 {
      var rest, o := body[n..], (i - 1) * n;
      assert i * n == o + n;
      SlicesAt(rest, n, i - 1);
      var end := if o + n <= |rest| then o + n else |rest|;
      assert rest == body[n..|body|];
      SliceOfSlice(body, n, |body|, o, end);
    }
  }

  // ------------------------------------------------------------------- buffered

  /** The slicing loop over a buffered body. */
  method ChunkBuffered(body: seq<byte>, chunkBytes: nat) returns (chunks: seq<seq<byte>>)
    requires chunkBytes > 0
    ensures chunks == Slices(body, chunkBytes)
  {
    hide Slices, Left;
    chunks := [];
    var offset: nat := 0;
    SlicesLeft(body, 0, chunkBytes);
    while offset < |body|
      invariant chunks + Slices(Left(body, offset), chunkBytes) == Slices(body, chunkBytes)
    {
      var end := if offset + chunkBytes <= |body| then offset + chunkBytes else |body|;
      SlicesLeft(body, offset, chunkBytes);
      ghost var before, rest := chunks, Slices(Left(body, offset + chunkBytes), chunkBytes);
      chunks := chunks + [body[offset..end]];
      assert before + ([body[offset..end]] + rest) == chunks + rest;
      offset := offset + chunkBytes;
    }
    SlicesLeft(body, offset, chunkBytes);
  }

  /** What a slicing loop has left at an offset. */
  function Left(body: seq<byte>, offset: nat): seq<byte> {
    if offset < |body| then body[offset..] else []
  }

  lemma {:induction false} SlicesLeft(body: seq<byte>, offset: nat, n: nat)
    requires n > 0
    ensures offset == 0 ==> Left(body, offset) == body
    ensures offset >= |body| ==> Slices(Left(body, offset), n) == []
    ensures var end := if offset + n <= |body| then offset + n else |body|;
            offset < |body| ==> Slices(Left(body, offset), n) == [body[offset..end]] + Slices(Left(body, offset + n), n)
  {
    if offset < |body| {
      var rest, end := body[offset..], if offset + n <= |body| then offset + n else |body|;
      SliceStep(rest, n);
      assert rest[..end - offset] == body[offset..end];
      assert rest[end - offset..] == Left(body, offset + n);
    }
  }

  lemma {:induction false} SliceStep(body: seq<byte>, n: nat)
    requires n > 0 && body != []
    ensures var k := if n <= |body| then n else |body|;
            Slices(body, n) == [body[..k]] + Slices(body[k..], n)
  {
    if |body| <= n {
      assert body[..|body|] == body && body[|body|..] == [];
    }
  }

  // ------------------------------------------------------------------- streamed

  /** Copies the parts one after another into one buffer. */
  method Concat(parts: seq<seq<byte>>, totalBytes: nat) returns (merged: array<byte>)
    requires totalBytes == |Flatten(parts)|
    ensures fresh(merged) && merged[..] == Flatten(parts)
  {
    merged := new byte[totalBytes];
    var offset := 0;
    for k := 0 to |parts|
      invariant offset == |Flatten(parts[..k])| && offset <= totalBytes
      invariant merged[..offset] == Flatten(parts[..k])
    {
      var part := parts[k];
      FlattenPrefix(parts, k + 1);
      assert parts[..k + 1][..k] == parts[..k];
      forall i | 0 <= i < |part| {
        merged[offset + i] := part[i];
      }
      assert merged[..offset + |part|] == merged[..offset] + part;
      offset := offset + |part|;
    }
    assert parts[..|parts|] == parts;
  }

  /** A full buffer is sliced, and its last piece is kept back: what comes next may join it. */
  method SliceKeepingTail(merged: seq<byte>, chunkBytes: nat, ghost later: seq<byte>)
    returns (chunks: seq<seq<byte>>, tail: seq<byte>)
    requires 0 < chunkBytes <= |merged|
    ensures chunks + Slices(tail + later, chunkBytes) == Slices(merged + later, chunkBytes)
    ensures Flatten(chunks) + tail == merged && 0 < |tail| <= chunkBytes
  {
    chunks, tail := [], [];
    var offset := 0;
    while offset < |merged|
      invariant offset < |merged| ==> Flatten(chunks) == merged[..offset]
      invariant offset < |merged| ==> OnCourse(chunks, merged[offset..], later, merged + later, chunkBytes)
      invariant offset >= |merged| ==> Flatten(chunks) + tail == merged && 0 < |tail| <= chunkBytes
      invariant offset >= |merged| ==> OnCourse(chunks, tail, later, merged + later, chunkBytes)
    {
      var rest := merged[offset..];
      if offset + chunkBytes >= |merged| {
        tail := rest;
      } else {
        var chunk := merged[offset..offset + chunkBytes];
        SliceStep(rest + later, chunkBytes);
        assert (rest + later)[..chunkBytes] == chunk;
        assert (rest + later)[chunkBytes..] == merged[offset + chunkBytes..] + later;
        FlattenMore(chunks, chunk);
        chunks := chunks + [chunk];
      }
      offset := offset + chunkBytes;
    }
  }

  /** What is out, and what slicing the bytes held and the bytes to come would add, make up the whole. */
  ghost predicate OnCourse(chunks: seq<seq<byte>>, held: seq<byte>, later: seq<byte>, body: seq<byte>, n: nat)
    requires n > 0
  {
    chunks + Slices(held + later, n) == Slices(body, n)
  }

  lemma NextArrives(chunks: seq<seq<byte>>, held: seq<byte>, arrivals: seq<seq<byte>>, k: nat, body: seq<byte>, n: nat)
    requires n > 0 && k < |arrivals| && OnCourse(chunks, held, Flatten(arrivals[k..]), body, n)
    ensures OnCourse(chunks, held + arrivals[k], Flatten(arrivals[k + 1..]), body, n)
  {
    FlattenFirst(arrivals[k..]);
    assert arrivals[k..][1..] == arrivals[k + 1..];
    assert held + (arrivals[k] + Flatten(arrivals[k + 1..])) == held + arrivals[k] + Flatten(arrivals[k + 1..]);
  }

  lemma {:induction false} Yields(chunks: seq<seq<byte>>, held: seq<byte>, yielded: seq<seq<byte>>, tail: seq<byte>,
                                  later: seq<byte>,
                                  body: seq<byte>, n: nat)
    requires n > 0 && OnCourse(chunks, held, later, body, n)
    requires yielded + Slices(tail + later, n) == Slices(held + later, n)
    ensures OnCourse(chunks + yielded, tail, later, body, n)
  {
    assert chunks + (yielded + Slices(tail + later, n)) == chunks + yielded + Slices(tail + later, n);
  }

  lemma {:induction false} NothingArrives(chunks: seq<seq<byte>>, held: seq<byte>, body: seq<byte>, n: nat)
    requires n > 0 && OnCourse(chunks, held, [], body, n) && |held| <= n
    ensures Slices(body, n) == if held == [] then chunks else chunks + [held]
  {
    assert held + [] == held;
  }

  lemma {:induction false} StartsOnCourse(arrivals: seq<seq<byte>>, n: nat)
    requires n > 0
    ensures OnCourse([], [], Flatten(arrivals[0..]), Flatten(arrivals), n)
  {
    assert arrivals[0..] == arrivals && [] + Flatten(arrivals) == Flatten(arrivals);
  }

  /** However the bytes arrive, a stream yields the chunks slicing would; `held` is what was buffered after each
      read, never more than one chunk. */
  method ChunkStream(arrivals: seq<seq<byte>>, chunkBytes: nat) returns (chunks: seq<seq<byte>>, held: seq<nat>)
    requires chunkBytes > 0
    ensures chunks == Slices(Flatten(arrivals), chunkBytes)
    ensures |held| == |arrivals| && forall k | 0 <= k < |held| :: held[k] <= chunkBytes
  {
    hide Slices, Flatten, OnCourse;
    chunks, held := [], [];
    var pending: seq<seq<byte>>, pendingBytes := [], 0;
    FlattenNothing<byte>();
    StartsOnCourse(arrivals, chunkBytes);
    for k := 0 to |arrivals|
      invariant pendingBytes == |Flatten(pending)| <= chunkBytes
      invariant OnCourse(chunks, Flatten(pending), Flatten(arrivals[k..]), Flatten(arrivals), chunkBytes)
      invariant |held| == k && forall i | 0 <= i < k :: held[i] <= chunkBytes
    {
      var value := arrivals[k];
      NextArrives(chunks, Flatten(pending), arrivals, k, Flatten(arrivals), chunkBytes);
      FlattenMore(pending, value);
      if |value| != 0 {
        pending := pending + [value];
        pendingBytes := pendingBytes + |value|;
        if pendingBytes >= chunkBytes {
          var merged := Concat(pending, pendingBytes);
          ghost var later := Flatten(arrivals[k + 1..]);
          var yielded, tail := SliceKeepingTail(merged[..], chunkBytes, later);
          Yields(chunks, merged[..], yielded, tail, later, Flatten(arrivals), chunkBytes);
          chunks := chunks + yielded;
          pending, pendingBytes := [tail], |tail|;
          FlattenMore([], tail);
          assert [] + [tail] == [tail] && Flatten([]) + tail == tail;
        }
      } else {
        assert Flatten(pending) + value == Flatten(pending);
      }
      held := held + [pendingBytes];
    }
    assert arrivals[|arrivals|..] == [];
    NothingArrives(chunks, Flatten(pending), Flatten(arrivals), chunkBytes);
    if pendingBytes > 0 {
      var last := Concat(pending, pendingBytes);
      chunks := chunks + [last[..]];
    }
  }
}
