/**
 * `MemArena`: a bump allocator over a list of fixed-size chunks.
 *
 * Each chunk has a capacity (`num_size`) and a fill level (`used_size`).
 * A request is served from the current chunk when it still fits;
 * otherwise a fresh chunk of the arena's chunk size is appended and
 * becomes current.  Memory is never given back.  An address handed out
 * is modelled as the chunk's index and the byte offset inside it.
 */
module Arena {

  datatype Chunk = Chunk(used: nat, capacity: nat)

  /** The bytes [offset, offset + size) of chunk `chunk`. */
  datatype Region = Region(chunk: nat, offset: nat, size: nat)

  /** Every chunk's fill level is within its capacity. */
  predicate ChunksWithin(chunks: seq<Chunk>)
  {
    forall i :: 0 <= i < |chunks| ==> chunks[i].used <= chunks[i].capacity
  }

  /**
   * `FreeChunk` followed by the bump in `Memory`, on the chunk list whose
   * last chunk is the current one: the chunks afterwards and the region
   * served.  No check that the request fits a fresh chunk.
   */
  function Serve(chunks: seq<Chunk>, size: nat, chunkSize: nat): (seq<Chunk>, Region)
    requires |chunks| > 0
  {
    var last := |chunks| - 1;
    var cur := chunks[last];
    if cur.used + size <= cur.capacity then
      (chunks[last := Chunk(cur.used + size, cur.capacity)], Region(last, cur.used, size))
    else
      (chunks + [Chunk(size, chunkSize)], Region(|chunks|, 0, size))
  }

  /** Serving never touches the chunks before the current one, and keeps or extends the list. */
  lemma ServeKeepsEarlier(chunks: seq<Chunk>, size: nat, chunkSize: nat)
    requires |chunks| > 0
    ensures var (c, r) := Serve(chunks, size, chunkSize);
      && c[..|chunks| - 1] == chunks[..|chunks| - 1]
      && (|c| == |chunks| || c == chunks + [Chunk(size, chunkSize)])
      && r.chunk == |c| - 1 && c[r.chunk].used == r.offset + size
  {
  }

  /**
   * When the request fits the current chunk the region starts at its old
   * fill level, so it follows everything served from that chunk before;
   * otherwise it starts a new chunk.
   */
  lemma ServeAppends(chunks: seq<Chunk>, size: nat, chunkSize: nat)
    requires |chunks| > 0
    ensures var (c, r) := Serve(chunks, size, chunkSize);
      var cur := chunks[|chunks| - 1];
      && (cur.used + size <= cur.capacity <==> r.chunk == |chunks| - 1)
      && (r.chunk == |chunks| - 1 ==> r.offset == cur.used)
      && (r.chunk != |chunks| - 1 ==> r.chunk == |chunks| && r.offset == 0)
  {
  }

  /** For requests no larger than the chunk size, every chunk stays within its capacity. */
  lemma ServeWithin(chunks: seq<Chunk>, size: nat, chunkSize: nat)
    requires |chunks| > 0 && ChunksWithin(chunks) && size <= chunkSize
    ensures ChunksWithin(Serve(chunks, size, chunkSize).0)
    ensures var r := Serve(chunks, size, chunkSize).1;
      r.offset + r.size <= Serve(chunks, size, chunkSize).0[r.chunk].capacity
  {
  }

  /** Two requests served one after the other from the same chunk are adjacent and do not overlap. */
  lemma ServeAdjacent(chunks: seq<Chunk>, a: nat, b: nat, chunkSize: nat)
    requires |chunks| > 0
    ensures var (c1, r1) := Serve(chunks, a, chunkSize);
      var (c2, r2) := Serve(c1, b, chunkSize);
      r2.chunk == r1.chunk ==> r2.offset == r1.offset + a
  {
    var (c1, r1) := Serve(chunks, a, chunkSize);
    ServeKeepsEarlier(chunks, a, chunkSize);
  }

  /**
   * As written, a request larger than the chunk size is served from a
   * fresh chunk that cannot hold it: a 5000-byte request in an arena of
   * 4096-byte chunks runs 904 bytes past the end of its chunk.
   */
  lemma OversizedRequestOverruns()
    ensures var (c, r) := Serve([Chunk(0, 4096)], 5000, 4096);
      r == Region(1, 0, 5000) && c[1].capacity == 4096 && !ChunksWithin(c)
  {
    var (c, r) := Serve([Chunk(0, 4096)], 5000, 4096);
    assert c[1] == Chunk(5000, 4096);
  }

  class MemArena {
    var chunks: seq<Chunk>
    /** The index of the current chunk (`node`). */
    var node: nat
    const newChunkSize: nat

    ghost predicate Valid()
      reads this
    {
      |chunks| > 0 && node == |chunks| - 1 && ChunksWithin(chunks)
    }

    /** `MemArena(chunk_size)`: one empty chunk of the chunk size. */
    constructor(chunkSize: nat)
      ensures Valid() && newChunkSize == chunkSize
      ensures chunks == [Chunk(0, chunkSize)] && node == 0
    {
      newChunkSize := chunkSize;
      chunks := [Chunk(0, chunkSize)];
      node := 0;
    }

    /** FreeChunk: the current chunk when the request fits, else a freshly appended one. */
    method FreeChunk(size: nat) returns (c: nat)
      requires Valid()
      modifies this
      ensures |chunks| > 0 && node == |chunks| - 1 && c == node
      ensures old(chunks[node].used) + size <= old(chunks[node].capacity) ==> chunks == old(chunks)
      ensures old(chunks[node].used) + size > old(chunks[node].capacity) ==>
                chunks == old(chunks) + [Chunk(0, newChunkSize)]
    {
      if chunks[node].used + size <= chunks[node].capacity {
        return node;
      }
      chunks := chunks + [Chunk(0, newChunkSize)];
      node := |chunks| - 1;
      c := node;
    }

    /**
     * Memory(size): `size` bytes from the current or a new chunk.  The
     * request must fit a fresh chunk (see OversizedRequestOverruns).
     */
    method Memory(size: nat) returns (r: Region)
      requires Valid() && size <= newChunkSize
      modifies this
      ensures Valid()
      ensures (chunks, r) == Serve(old(chunks), size, newChunkSize)
    {
      ghost var before := chunks;
      var c := FreeChunk(size);
      r := Region(c, chunks[c].used, size);
      chunks := chunks[c := Chunk(chunks[c].used + size, chunks[c].capacity)];
      if |chunks| > |before| {
        assert chunks == before + [Chunk(size, newChunkSize)];
      }
      ServeWithin(before, size, newChunkSize);
    }

    /** `Create<T>` / `Memory<T>()`: room for one object of `typeSize` bytes. */
    method Create(typeSize: nat) returns (r: Region)
      requires Valid() && typeSize <= newChunkSize
      modifies this
      ensures Valid()
      ensures (chunks, r) == Serve(old(chunks), typeSize, newChunkSize)
    {
      r := Memory(typeSize);
    }

    /** `CreateArray<T>(n)`: room for n objects of `typeSize` bytes each. */
    method CreateArray(typeSize: nat, n: nat) returns (r: Region)
      requires Valid() && typeSize * n <= newChunkSize
      modifies this
      ensures Valid() && r.size == typeSize * n
      ensures (chunks, r) == Serve(old(chunks), typeSize * n, newChunkSize)
    {
      r := Memory(typeSize * n);
    }
  }
}
