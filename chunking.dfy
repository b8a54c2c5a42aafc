/**
 * The chunk codec of the upload handler: an uploaded buffer is cut into
 * consecutive slices of at most `maxChunkSize` bytes, and the download
 * handler glues the slices back together with `Buffer.concat`.
 */
module Chunking {

  /** One byte of a Node `Buffer`. */
  newtype byte = b: int | 0 <= b < 256

  /** The chunk size the upload handler uses: 512 MiB. */
  const MaxChunkSize: nat := 512 * 1024 * 1024

  function Min(a: nat, b: nat): nat
  {
    if a <= b then a else b
  }

  /** The sum of the chunk lengths. */
  function TotalLength(chunks: seq<seq<byte>>): nat
    decreases |chunks|
  {
    if |chunks| == 0 then 0 else TotalLength(chunks[..|chunks| - 1]) + |chunks[|chunks| - 1]|
  }

  /** `Buffer.concat(chunks)`: the chunks glued together in order. */
  function Concat(chunks: seq<seq<byte>>): (joined: seq<byte>)
    ensures |joined| == TotalLength(chunks)
    decreases |chunks|
  {
    if |chunks| == 0 then [] else Concat(chunks[..|chunks| - 1]) + chunks[|chunks| - 1]
  }

  /**
   * The chunk sequence the upload loop produces: the first chunk takes
   * `Min(maxChunkSize, |buffer|)` bytes, the rest of the buffer is chunked
   * the same way, and an empty buffer gives no chunk at all.
   */
  function Chunked(buffer: seq<byte>, maxChunkSize: nat): (chunks: seq<seq<byte>>)
    requires maxChunkSize >= 1
    ensures |chunks| <= |buffer|
    ensures chunks == [] <==> buffer == []
    decreases |buffer|
  {
    if |buffer| == 0 then []
    else
      var size := Min(maxChunkSize, |buffer|);
      [buffer[..size]] + Chunked(buffer[size..], maxChunkSize)
  }

  /**
   * The size rule the upload loop keeps: no chunk is empty or longer than
   * `maxChunkSize`, and every chunk but the last is exactly `maxChunkSize`.
   */
  ghost predicate WellSized(chunks: seq<seq<byte>>, maxChunkSize: nat)
  {
    && (forall i :: 0 <= i < |chunks| ==> 1 <= |chunks[i]| <= maxChunkSize)
    && (forall i :: 0 <= i < |chunks| - 1 ==> |chunks[i]| == maxChunkSize)
  }

  /**
   * What holds at the head of the upload loop: the chunks pushed so far
   * glue to the first `offset` bytes (so `offset` is their total length),
   * they are well sized, and while bytes remain every one of them is full.
   */
  ghost predicate SplitInvariant(buffer: seq<byte>, maxChunkSize: nat, chunks: seq<seq<byte>>, offset: nat)
  {
    && offset <= |buffer|
    && Concat(chunks) == buffer[..offset]
    && WellSized(chunks, maxChunkSize)
    && (offset < |buffer| ==> forall i :: 0 <= i < |chunks| ==> |chunks[i]| == maxChunkSize)
  }

  /**
   * The `while (offset < buffer.length)` loop of the upload handler: each
   * step copies the next `Min(maxChunkSize, remaining)` bytes into a new
   * chunk, pushes it and advances `offset`.
   */
  method Split(buffer: seq<byte>, maxChunkSize: nat) returns (chunks: seq<seq<byte>>)
    requires maxChunkSize >= 1
    ensures chunks == Chunked(buffer, maxChunkSize)
    ensures Concat(chunks) == buffer
    ensures forall i :: 0 <= i < |chunks| ==> 1 <= |chunks[i]| <= maxChunkSize
    ensures forall i :: 0 <= i < |chunks| - 1 ==> |chunks[i]| == maxChunkSize
  {
    chunks := [];
    var offset: nat := 0;
    while offset < |buffer|
      invariant SplitInvariant(buffer, maxChunkSize, chunks, offset)
    {
      var chunkSize := Min(maxChunkSize, |buffer| - offset);
      var chunk := buffer[offset..offset + chunkSize];
      SplitStep(buffer, maxChunkSize, chunks, offset);
      chunks := chunks + [chunk];
      offset := offset + chunkSize;
    }
    assert Concat(chunks) == buffer by {
      assert buffer[..offset] == buffer;
    }
    ChunkedUnique(buffer, maxChunkSize, chunks);
  }

  /** One step of the upload loop keeps the loop invariant. */
  lemma SplitStep(buffer: seq<byte>, maxChunkSize: nat, chunks: seq<seq<byte>>, offset: nat)
    requires maxChunkSize >= 1 && offset < |buffer|
    requires SplitInvariant(buffer, maxChunkSize, chunks, offset)
    ensures offset + Min(maxChunkSize, |buffer| - offset) <= |buffer|
    ensures var next := offset + Min(maxChunkSize, |buffer| - offset);
      SplitInvariant(buffer, maxChunkSize, chunks + [buffer[offset..next]], next)
  {
    var next := offset + Min(maxChunkSize, |buffer| - offset);
    var chunk := buffer[offset..next];
    var pushed := chunks + [chunk];
    assert Concat(pushed) == buffer[..next] by {
      ConcatPush(chunks, chunk);
      assert buffer[..offset] + chunk == buffer[..next];
    }
    assert next < |buffer| ==> |chunk| == maxChunkSize;
    assert forall i :: 0 <= i < |chunks| ==> pushed[i] == chunks[i];
  }

  /**
   * `Chunked` is the only well-sized chunk sequence that glues back to the
   * buffer, so the loop's result is determined by its invariant.
   */
  lemma {:induction false} ChunkedUnique(buffer: seq<byte>, maxChunkSize: nat, chunks: seq<seq<byte>>)
    requires maxChunkSize >= 1
    requires Concat(chunks) == buffer
    requires WellSized(chunks, maxChunkSize)
    ensures chunks == Chunked(buffer, maxChunkSize)
    decreases |chunks|
  {
    if |chunks| > 0 {
      var first, rest := chunks[0], chunks[1..];
      assert chunks == [first] + rest;
      ConcatAppend([first], rest);
      ConcatSingle(first);
      assert buffer == first + Concat(rest);
      assert WellSized(rest, maxChunkSize) by {
        assert forall i :: 0 <= i < |rest| ==> rest[i] == chunks[i + 1];
      }
      if |rest| == 0 {
        assert Concat(rest) == [];
        assert buffer[..|buffer|] == first && buffer[|buffer|..] == [];
      } else {
        assert |first| == maxChunkSize;
        ConcatNonEmpty(rest, maxChunkSize);
        assert buffer[..maxChunkSize] == first && buffer[maxChunkSize..] == Concat(rest);
        ChunkedUnique(Concat(rest), maxChunkSize, rest);
      }
    }
  }

  /** A non-empty well-sized sequence glues to a non-empty buffer. */
  lemma ConcatNonEmpty(chunks: seq<seq<byte>>, maxChunkSize: nat)
    requires |chunks| > 0 && WellSized(chunks, maxChunkSize)
    ensures |Concat(chunks)| >= |chunks[|chunks| - 1]| >= 1
  {
  }

  lemma ConcatPush(chunks: seq<seq<byte>>, chunk: seq<byte>)
    ensures Concat(chunks + [chunk]) == Concat(chunks) + chunk
  {
    assert (chunks + [chunk])[..|chunks|] == chunks;
  }

  /** Concatenation distributes over sequence append. */
  lemma {:induction false} ConcatAppend(a: seq<seq<byte>>, b: seq<seq<byte>>)
    ensures Concat(a + b) == Concat(a) + Concat(b)
    decreases |b|
  {
    if |b| == 0 {
      assert a + b == a;
    } else {
      var front := b[..|b| - 1];
      assert (a + b)[..|a + b| - 1] == a + front;
      ConcatAppend(a, front);
    }
  }

  lemma ConcatSingle(c: seq<byte>)
    ensures Concat([c]) == c
  {
    assert [c][..0] == [];
  }

  /** Splitting then concatenating gives back the buffer exactly. */
  lemma {:induction false} ChunkedJoin(buffer: seq<byte>, maxChunkSize: nat)
    requires maxChunkSize >= 1
    ensures Concat(Chunked(buffer, maxChunkSize)) == buffer
    decreases |buffer|
  {
    if |buffer| > 0 {
      var size := Min(maxChunkSize, |buffer|);
      ChunkedJoin(buffer[size..], maxChunkSize);
      ConcatAppend([buffer[..size]], Chunked(buffer[size..], maxChunkSize));
      ConcatSingle(buffer[..size]);
      assert buffer[..size] + buffer[size..] == buffer;
    }
  }

  /**
   * No chunk is empty and none is longer than `maxChunkSize`; every chunk
   * but the last is exactly `maxChunkSize` bytes long.
   */
  lemma {:induction false} ChunkedSizes(buffer: seq<byte>, maxChunkSize: nat)
    requires maxChunkSize >= 1
    ensures forall i :: 0 <= i < |Chunked(buffer, maxChunkSize)| ==>
              1 <= |Chunked(buffer, maxChunkSize)[i]| <= maxChunkSize
    ensures forall i :: 0 <= i < |Chunked(buffer, maxChunkSize)| - 1 ==>
              |Chunked(buffer, maxChunkSize)[i]| == maxChunkSize
    decreases |buffer|
  {
    if |buffer| > 0 {
      var size := Min(maxChunkSize, |buffer|);
      var rest := Chunked(buffer[size..], maxChunkSize);
      ChunkedSizes(buffer[size..], maxChunkSize);
      var all := Chunked(buffer, maxChunkSize);
      assert all == [buffer[..size]] + rest;
      forall i | 1 <= i < |all|
        ensures all[i] == rest[i - 1]
      {
      }
      if |rest| > 0 {
        assert |buffer[size..]| > 0;
        assert size == maxChunkSize;
      }
    }
  }

  /**
   * Writing the length as `q` full chunks and a remainder `r`, there are
   * `q` chunks, plus one when `r` is not zero.
   */
  lemma {:induction false} ChunkedCountBy(buffer: seq<byte>, maxChunkSize: nat, q: nat, r: nat)
    requires maxChunkSize >= 1 && r < maxChunkSize
    requires |buffer| == q * maxChunkSize + r
    ensures |Chunked(buffer, maxChunkSize)| == q + (if r > 0 then 1 else 0)
    decreases q
  {
    var m := maxChunkSize;
    if q == 0 {
      if r > 0 {
        assert buffer[r..] == [];
        assert Chunked(buffer, m) == [buffer[..r]] + Chunked([], m);
      }
    } else {
      assert |buffer[m..]| == (q - 1) * m + r;
      ChunkedCountBy(buffer[m..], m, q - 1, r);
    }
  }

  /**
   * The number of chunks is the length divided by `maxChunkSize`, rounded
   * up: an empty buffer gives no chunk.
   */
  lemma ChunkedCount(buffer: seq<byte>, maxChunkSize: nat)
    requires maxChunkSize >= 1
    ensures |Chunked(buffer, maxChunkSize)| ==
              |buffer| / maxChunkSize + (if |buffer| % maxChunkSize > 0 then 1 else 0)
  {
    ChunkedCountBy(buffer, maxChunkSize, |buffer| / maxChunkSize, |buffer| % maxChunkSize);
  }

  /** A buffer of exactly `k` full chunks gives `k` chunks, each of them full. */
  lemma {:induction false} ChunkedExactMultiple(buffer: seq<byte>, maxChunkSize: nat, k: nat)
    requires maxChunkSize >= 1
    requires |buffer| == k * maxChunkSize
    ensures |Chunked(buffer, maxChunkSize)| == k
    ensures forall i :: 0 <= i < k ==> |Chunked(buffer, maxChunkSize)[i]| == maxChunkSize
    decreases k
  {
    if k > 0 {
      var m := maxChunkSize;
      assert |buffer[m..]| == (k - 1) * m;
      ChunkedExactMultiple(buffer[m..], m, k - 1);
      var all := Chunked(buffer, m);
      assert all == [buffer[..m]] + Chunked(buffer[m..], m);
      forall i | 1 <= i < k
        ensures |all[i]| == m
      {
        assert all[i] == Chunked(buffer[m..], m)[i - 1];
      }
    }
  }

  /** One byte past `k` full chunks gives `k + 1` chunks, the last of one byte. */
  lemma {:induction false} ChunkedOnePastMultiple(buffer: seq<byte>, maxChunkSize: nat, k: nat)
    requires maxChunkSize >= 1
    requires |buffer| == k * maxChunkSize + 1
    ensures |Chunked(buffer, maxChunkSize)| == k + 1
    ensures |Chunked(buffer, maxChunkSize)[k]| == 1
    decreases k
  {
    var m := maxChunkSize;
    if k == 0 {
      assert Chunked(buffer, m) == [buffer[..1]] + Chunked(buffer[1..], m);
      assert buffer[1..] == [];
    } else {
      assert |buffer[m..]| == (k - 1) * m + 1;
      ChunkedOnePastMultiple(buffer[m..], m, k - 1);
      assert Chunked(buffer, m) == [buffer[..m]] + Chunked(buffer[m..], m);
    }
  }

  /** Chunk size 10 and 25 bytes give chunks of 10, 10 and 5 bytes. */
  lemma ChunkedExample(buffer: seq<byte>)
    requires |buffer| == 25
    ensures |Chunked(buffer, 10)| == 3
    ensures |Chunked(buffer, 10)[0]| == 10 && |Chunked(buffer, 10)[1]| == 10
    ensures |Chunked(buffer, 10)[2]| == 5
  {
    ChunkedCount(buffer, 10);
    ChunkedSizes(buffer, 10);
    ChunkedJoin(buffer, 10);
    var c := Chunked(buffer, 10);
    assert c == c[..2] + [c[2]];
    ConcatAppend(c[..2], [c[2]]);
    assert c[..2] == c[..1] + [c[1]];
    ConcatAppend(c[..1], [c[1]]);
    ConcatSingle(c[0]);
    ConcatSingle(c[1]);
    ConcatSingle(c[2]);
  }

  /** With the source's 512 MiB chunk size, any non-empty upload up to that size is one chunk. */
  lemma SingleChunkUpToMax(buffer: seq<byte>)
    requires 1 <= |buffer| <= MaxChunkSize
    ensures Chunked(buffer, MaxChunkSize) == [buffer]
  {
    assert buffer[..|buffer|] == buffer;
    assert buffer[|buffer|..] == [];
  }
}
