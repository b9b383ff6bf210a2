/** Splitting a BAM file into chunks for the worker processes
    (`calculate_chunks` and the chunk set-up in `convert`). Positions are
    BGZF virtual offsets (section 4.1.1 of the SAM/BAM format
    specification): the offset of a compressed block in the file shifted
    left by 16 bits, or-ed with an offset inside the uncompressed block. */
module Chunks {
  import opened Wrappers

  const MAX_CHUNKS: int := 1000
  const BLOCK_SHIFT: int := 0x1_0000  // 1 << 16

  /** The number of chunks `convert` works with: the processor count when
      none (or a non-positive number) was asked for, otherwise the request
      capped at 1000. */
  function NormaliseChunks(requested: int, cpuCount: int): (n: int)
    ensures requested <= 0 ==> n == cpuCount
    ensures requested > 0 ==> 0 < n <= requested && n <= MAX_CHUNKS
    ensures requested > 0 && n < requested ==> n == MAX_CHUNKS
  {
    if requested <= 0 then cpuCount
    else if requested > MAX_CHUNKS then MAX_CHUNKS
    else requested
  }

  /** Normalising an already normalised count changes nothing. */
  lemma NormaliseChunksIdempotent(requested: int, cpuCount: int)
    requires 0 < cpuCount <= MAX_CHUNKS
    ensures NormaliseChunks(NormaliseChunks(requested, cpuCount), cpuCount)
         == NormaliseChunks(requested, cpuCount)
  {
  }

  /** Python's `v >> 16`, which rounds towards minus infinity. */
  function Shift16(v: int): (r: int)
    ensures r * BLOCK_SHIFT <= v < (r + 1) * BLOCK_SHIFT
  {
    v / BLOCK_SHIFT
  }

  /** `bgzf.make_virtual_offset(coffset, uoffset)`. */
  function MakeVirtualOffset(coffset: nat, uoffset: nat): int
    requires uoffset < BLOCK_SHIFT
  {
    coffset * BLOCK_SHIFT + uoffset
  }

  /** Shifting a virtual offset right by 16 recovers the block offset. */
  lemma {:induction false} VirtualOffsetBlock(coffset: nat, uoffset: nat)
    requires uoffset < BLOCK_SHIFT
    ensures Shift16(MakeVirtualOffset(coffset, uoffset)) == coffset
  {
    var v := MakeVirtualOffset(coffset, uoffset);
    var r := Shift16(v);
    assert r * BLOCK_SHIFT <= coffset * BLOCK_SHIFT + uoffset < (r + 1) * BLOCK_SHIFT;
  }

  /** A `[start, end]` pair of virtual offsets; `end == -1` reads to the
      end of the file. */
  datatype Chunk = Chunk(start: int, end: int)

  /** Chunks that follow one another: each starts where the one before
      ends, and the last is open. */
  ghost predicate Adjoining(chunks: seq<Chunk>)
  {
    && |chunks| > 0
    && (forall i :: 0 <= i < |chunks| - 1 ==> chunks[i].end == chunks[i + 1].start)
    && chunks[|chunks| - 1].end == -1
  }

  /** `calculate_chunks` from the virtual offsets of the first block of
      every partition (the partitioning of the blocks and the move of each
      boundary to a read boundary are not part of this model). A single
      chunk, or no offsets at all, give the whole file. */
  method CalculateChunks(numChunks: int, virtualOffsets: seq<int>) returns (chunks: seq<Chunk>)
    ensures numChunks == 1 || |virtualOffsets| == 0 ==> chunks == [Chunk(0, -1)]
    ensures numChunks != 1 && |virtualOffsets| > 0 ==>
      && |chunks| == |virtualOffsets|
      && (forall i :: 0 <= i < |chunks| ==> chunks[i].start == virtualOffsets[i])
    ensures Adjoining(chunks)
  {
    if numChunks == 1 {
      return [Chunk(0, -1)];
    }
    if |virtualOffsets| == 0 {
      return [Chunk(0, -1)];
    }
    var startStops: seq<Chunk> := [];
    var idx := 0;
    while idx < |virtualOffsets| - 1
      invariant 0 <= idx <= |virtualOffsets| - 1
      invariant |startStops| == idx
      invariant forall i :: 0 <= i < idx ==>
        startStops[i] == Chunk(virtualOffsets[i], virtualOffsets[i + 1])
    {
      startStops := startStops + [Chunk(virtualOffsets[idx], virtualOffsets[idx + 1])];
      idx := idx + 1;
    }
    chunks := startStops + [Chunk(virtualOffsets[idx], -1)];
    forall i | 0 <= i < |chunks| ensures chunks[i].start == virtualOffsets[i] {
      if i < idx {
        assert chunks[i] == startStops[i];
        assert startStops[i] == Chunk(virtualOffsets[i], virtualOffsets[i + 1]);
      } else {
        assert chunks[i] == Chunk(virtualOffsets[idx], -1);
      }
    }
  }

  /** `(offset_bytes, chunk_bytes)` of a chunk: the file offset of its
      first block and the number of bytes up to the block holding its end,
      or -1 for "to the end of the file". */
  function ByteRange(c: Chunk): (r: (int, int))
    ensures r.0 == Shift16(c.start)
    ensures c.end > 0 ==> r.0 + r.1 == Shift16(c.end)
    ensures c.end <= 0 ==> r.1 == -1
  {
    var offsetBytes := Shift16(c.start);
    (offsetBytes, if c.end > 0 then Shift16(c.end) - offsetBytes else -1)
  }

  /** What a worker is told about one chunk: its id, where to start
      copying and how many bytes to copy. */
  datatype Piece = Piece(cid: int, offsetBytes: int, chunkBytes: int)

  /** `chunks[cid]` for a chunk id the list does not have. */
  datatype ChunkError = ChunkIndexError(cid: int)

  /** The pieces of every chunk id `0 .. numChunks - 1`, in id order (the
      spreading of ids over the processes is not part of this model).
      Fails on the first id the chunk list does not cover. */
  method PlanPieces(chunks: seq<Chunk>, numChunks: int) returns (r: Result<seq<Piece>, ChunkError>)
    ensures r.Success? <==> numChunks <= |chunks|
    ensures r.Failure? ==> r.error == ChunkIndexError(|chunks|)
    ensures r.Success? ==>
      && |r.value| == (if numChunks < 0 then 0 else numChunks)
      && forall i :: 0 <= i < |r.value| ==>
           r.value[i] == Piece(i, ByteRange(chunks[i]).0, ByteRange(chunks[i]).1)
  {
    var data: seq<Piece> := [];
    var cid := 0;
    while cid < numChunks
      invariant 0 <= cid <= |chunks| + 1
      invariant if numChunks < 0 then cid == 0 else cid <= numChunks
      invariant cid <= |chunks|
      invariant |data| == cid
      invariant forall i :: 0 <= i < cid ==>
        data[i] == Piece(i, ByteRange(chunks[i]).0, ByteRange(chunks[i]).1)
    {
      if cid >= |chunks| {
        return Failure(ChunkIndexError(cid));
      }
      var range := ByteRange(chunks[cid]);
      data := data + [Piece(cid, range.0, range.1)];
      cid := cid + 1;
    }
    return Success(data);
  }

  /** For adjoining chunks whose boundaries lie past the first block, the
      pieces tile the file: each piece ends where the next one starts,
      and the last one runs to the end of the file. */
  lemma PiecesTile(chunks: seq<Chunk>)
    requires Adjoining(chunks)
    requires forall i :: 0 <= i < |chunks| - 1 ==> chunks[i].end > 0
    ensures forall i :: 0 <= i < |chunks| - 1 ==>
      ByteRange(chunks[i]).0 + ByteRange(chunks[i]).1 == ByteRange(chunks[i + 1]).0
    ensures ByteRange(chunks[|chunks| - 1]).1 == -1
  {
  }
}
