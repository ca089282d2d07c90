/** Size arithmetic of `my_malloc` on ROCm, csrc/cumem_allocator.cpp: aligning a request and cutting
    it into chunks.  All sums wrap around at 64 bits, as in the source. */
module ChunkPlan {
  import opened Wrappers
  import opened Arithmetic

  const WORD: nat := 0x1_0000_0000_0000_0000
  const MB: nat := 1024 * 1024
  const DEFAULT_CHUNK_SIZE: nat := 256 * MB

  type Word = x: int | 0 <= x < 0x1_0000_0000_0000_0000

  function Wrap(x: nat): Word { x % WORD }

  /** `get_memcreate_chunk_size`; `parsed` is what strtoull read from the environment, if it could. */
  function ConfiguredChunkSize(parsed: Option<Word>): (r: Word)
    ensures r > 0 && r % MB == 0
    ensures r == if parsed.Some? && 0 < parsed.value * MB < WORD then parsed.value * MB else 268_435_456
  {
    if parsed.None? || parsed.value == 0 || parsed.value > (WORD - 1) / MB then DEFAULT_CHUNK_SIZE
    else parsed.value * MB
  }

  function Floor(x: nat, m: nat): nat
    requires m > 0
  {
    x / m * m
  }

  function AlignUp(size: Word, granularity: Word): Word
    requires granularity > 0
  {
    Wrap(Floor(Wrap(size + granularity - 1), granularity))
  }

  function NumChunks(alignedSize: Word, alignedChunk: Word): Word
    requires alignedChunk > 0
  {
    Wrap(alignedSize + alignedChunk - 1) / alignedChunk
  }

  function Sum(sizes: seq<nat>): nat {
    if sizes == [] then 0 else Sum(sizes[..|sizes| - 1]) + sizes[|sizes| - 1]
  }

  datatype Plan = Plan(alignedSize: Word, chunks: seq<Word>)

  /** Chunk `i` starts at byte `Offset(chunks, i)` of the reserved range. */
  function Offset(chunks: seq<nat>, i: nat): nat
    requires i <= |chunks|
  {
    Sum(chunks[..i])
  }

  lemma OffsetStep(chunks: seq<nat>, i: nat)
    requires i < |chunks|
    ensures Offset(chunks, i + 1) == Offset(chunks, i) + chunks[i]
  {
    assert chunks[..i + 1][..i] == chunks[..i];
  }

  /** The chunks are positive multiples of the granularity and make up an aligned size that holds
      the request. */
  predicate Tiles(p: Plan, size: Word, granularity: Word)
    requires granularity > 0
  {
    && size <= p.alignedSize
    && (forall i | 0 <= i < |p.chunks| :: p.chunks[i] > 0 && p.chunks[i] % granularity == 0)
    && Sum(p.chunks) == p.alignedSize
  }

  function ChunkAt(alignedSize: Word, alignedChunk: Word, i: nat): Word
    requires i * alignedChunk <= alignedSize
  {
    var left := Wrap(alignedSize - i * alignedChunk);
    if left < alignedChunk then left else alignedChunk
  }

  /** The chunk sizes `my_malloc` fills in.  None: the division by the chunk size traps. */
  method PlanChunks(size: Word, granularity: Word, baseChunk: Word) returns (r: Option<Plan>)
    requires granularity > 0 && baseChunk > 0
    ensures r.None? <==> baseChunk + granularity - 1 >= WORD
    ensures r.Some? ==> r.value.alignedSize == AlignUp(size, granularity)
    ensures r.Some? ==> forall i | 0 <= i < |r.value.chunks| ::
      if i + 1 < |r.value.chunks| then r.value.chunks[i] == AlignUp(baseChunk, granularity)
      else r.value.chunks[i] <= AlignUp(baseChunk, granularity)
    ensures r.Some? ==>
      (Tiles(r.value, size, granularity) <==>
        size + granularity - 1 < WORD && AlignUp(size, granularity) + AlignUp(baseChunk, granularity) - 1 < WORD)
  {
    var alignedSize := AlignUp(size, granularity);
    var alignedChunk := AlignUp(baseChunk, granularity);
    AlignUpExact(baseChunk, granularity);
    if alignedChunk == 0 {
      return None;
    }
    var numChunks := NumChunks(alignedSize, alignedChunk);
    NumChunksExact(alignedSize, alignedChunk);
    var chunks: seq<Word> := [];
    for i := 0 to numChunks
      invariant |chunks| == i
      invariant forall j | 0 <= j < i :: j * alignedChunk < alignedSize && chunks[j] == ChunkAt(alignedSize, alignedChunk, j)
    {
      MulMonotone(i, numChunks - 1, alignedChunk);
      var left := Wrap(alignedSize - i * alignedChunk);
      chunks := chunks + [if left < alignedChunk then left else alignedChunk];
    }
    TilesExactly(size, granularity, alignedChunk, chunks);
    forall i: nat | i + 1 < |chunks| ensures chunks[i] == alignedChunk {
      assert chunks[i + 1] == ChunkAt(alignedSize, alignedChunk, i + 1);
      WholeChunk(alignedSize, alignedChunk, i);
    }
    r := Some(Plan(alignedSize, chunks));
  }

  // ----- arithmetic

  lemma WrapFacts(x: nat)
    requires x < 2 * WORD
    ensures Wrap(x) == if x < WORD then x else x - WORD
  {}

  lemma FloorFacts(x: nat, m: nat)
    requires m > 0
    ensures Floor(x, m) <= x < Floor(x, m) + m
    ensures Floor(x, m) % m == 0
    ensures x < m ==> Floor(x, m) == 0
  {
    var q := x / m;
    assert x == q * m + x % m;
    DivModUnique(q * m, q, 0, m);
    if x < m {
      DivModUnique(x, 0, x, m);
    }
  }

  /** Aligning either rounds up to a multiple, or wraps around and gives 0. */
  lemma AlignUpExact(size: Word, granularity: Word)
    requires granularity > 0
    ensures AlignUp(size, granularity) % granularity == 0
    ensures size + granularity - 1 < WORD ==> size <= AlignUp(size, granularity) < size + granularity
    ensures size + granularity - 1 >= WORD ==> AlignUp(size, granularity) == 0
  {
    var up := Wrap(size + granularity - 1);
    FloorFacts(up, granularity);
    WrapFacts(size + granularity - 1);
    WrapFacts(Floor(up, granularity));
  }

  lemma NumChunksExact(alignedSize: Word, alignedChunk: Word)
    requires alignedChunk > 0
    ensures
      var n := NumChunks(alignedSize, alignedChunk);
      if alignedSize + alignedChunk - 1 < WORD then
        (n == 0 && alignedSize == 0) || (n > 0 && (n - 1) * alignedChunk < alignedSize <= n * alignedChunk)
      else n == 0 && alignedSize > 0
  {
    var up := Wrap(alignedSize + alignedChunk - 1);
    var n := NumChunks(alignedSize, alignedChunk);
    assert up == n * alignedChunk + up % alignedChunk;
    if alignedSize + alignedChunk - 1 >= WORD {
      DivModUnique(alignedSize + alignedChunk - 1, 1, alignedSize + alignedChunk - 1 - WORD, WORD);
      DivModUnique(up, 0, up, alignedChunk);
    } else if n > 0 {
      assert (n - 1) * alignedChunk == n * alignedChunk - alignedChunk;
    }
  }

  lemma MultipleLeft(alignedSize: nat, alignedChunk: nat, granularity: nat, i: nat)
    requires granularity > 0 && alignedSize % granularity == 0 && alignedChunk % granularity == 0
    requires i * alignedChunk <= alignedSize
    ensures (alignedSize - i * alignedChunk) % granularity == 0
  {
    var a, c := alignedSize / granularity, alignedChunk / granularity;
    assert alignedSize == a * granularity && alignedChunk == c * granularity;
    assert i * alignedChunk == (i * c) * granularity;
    var d: int := a - i * c;
    assert alignedSize - i * alignedChunk == d * granularity;
    assert d >= 0;
    DivModUnique(d * granularity, d, 0, granularity);
  }

  /** Sums of the chunk sizes: whole chunks, up to the aligned size. */
  lemma {:induction false} ChunkOffset(alignedSize: Word, alignedChunk: Word, chunks: seq<Word>, i: nat)
    requires i <= |chunks| && alignedChunk > 0
    requires forall j | 0 <= j < |chunks| ::
               j * alignedChunk < alignedSize && chunks[j] == ChunkAt(alignedSize, alignedChunk, j)
    ensures Offset(chunks, i) == if i * alignedChunk <= alignedSize then i * alignedChunk else alignedSize
  {
    if i > 0 {
      ChunkOffset(alignedSize, alignedChunk, chunks, i - 1);
      OffsetStep(chunks, i - 1);
      assert (i - 1) * alignedChunk == i * alignedChunk - alignedChunk;
      assert chunks[i - 1] == ChunkAt(alignedSize, alignedChunk, i - 1);
    }
  }

  lemma ChunkIsMultiple(alignedSize: Word, alignedChunk: Word, granularity: Word, i: nat)
    requires granularity > 0 && alignedSize % granularity == 0
    requires alignedChunk > 0 && alignedChunk % granularity == 0 && i * alignedChunk < alignedSize
    ensures ChunkAt(alignedSize, alignedChunk, i) > 0 && ChunkAt(alignedSize, alignedChunk, i) % granularity == 0
  {
    MultipleLeft(alignedSize, alignedChunk, granularity, i);
  }

  lemma WholeChunk(alignedSize: Word, alignedChunk: Word, i: nat)
    requires (i + 1) * alignedChunk < alignedSize && i * alignedChunk <= alignedSize
    ensures ChunkAt(alignedSize, alignedChunk, i) == alignedChunk
  {
    assert (i + 1) * alignedChunk == i * alignedChunk + alignedChunk;
  }

  lemma ChunkSum(alignedSize: Word, alignedChunk: Word, chunks: seq<Word>)
    requires alignedChunk > 0 && |chunks| == NumChunks(alignedSize, alignedChunk)
    requires forall j | 0 <= j < |chunks| ::
               j * alignedChunk < alignedSize && chunks[j] == ChunkAt(alignedSize, alignedChunk, j)
    ensures Sum(chunks) == alignedSize <==> alignedSize + alignedChunk - 1 < WORD
  {
    NumChunksExact(alignedSize, alignedChunk);
    ChunkOffset(alignedSize, alignedChunk, chunks, |chunks|);
    assert chunks[..|chunks|] == chunks;
  }

  /** The chunks tile the aligned size exactly when neither rounding-up sum wraps around. */
  lemma TilesExactly(size: Word, granularity: Word, alignedChunk: Word, chunks: seq<Word>)
    requires granularity > 0 && alignedChunk > 0 && alignedChunk % granularity == 0
    requires |chunks| == NumChunks(AlignUp(size, granularity), alignedChunk)
    requires forall j | 0 <= j < |chunks| ::
               && j * alignedChunk < AlignUp(size, granularity)
               && chunks[j] == ChunkAt(AlignUp(size, granularity), alignedChunk, j)
    ensures Tiles(Plan(AlignUp(size, granularity), chunks), size, granularity) <==>
            size + granularity - 1 < WORD && AlignUp(size, granularity) + alignedChunk - 1 < WORD
  {
    var alignedSize := AlignUp(size, granularity);
    AlignUpExact(size, granularity);
    ChunkSum(alignedSize, alignedChunk, chunks);
    forall j | 0 <= j < |chunks| ensures chunks[j] > 0 && chunks[j] % granularity == 0 {
      ChunkIsMultiple(alignedSize, alignedChunk, granularity, j);
    }
  }

  // ----- the chunks cover the reserved range

  predicate InChunk(chunks: seq<nat>, i: nat, b: nat)
    requires i < |chunks|
  {
    Offset(chunks, i) <= b < Offset(chunks, i + 1)
  }

  lemma {:induction false} OffsetMonotone(chunks: seq<nat>, i: nat, j: nat)
    requires i <= j <= |chunks|
    ensures Offset(chunks, i) <= Offset(chunks, j)
    decreases j - i
  {
    if i < j {
      OffsetStep(chunks, i);
      OffsetMonotone(chunks, i + 1, j);
    }
  }

  /** No gap and no overlap: every byte of the range is in exactly one chunk. */
  lemma EachByteInOneChunk(chunks: seq<nat>, b: nat)
    requires b < Sum(chunks)
    ensures exists i: nat | i < |chunks| ::
              InChunk(chunks, i, b) && forall j: nat | j < |chunks| && InChunk(chunks, j, b) :: j == i
  {
    assert chunks[..|chunks|] == chunks;
    var i := FindChunk(chunks, |chunks|, b);
    forall j: nat | j < |chunks| && InChunk(chunks, j, b) ensures j == i {
      if j < i {
        OffsetMonotone(chunks, j + 1, i);
      } else if i < j {
        OffsetMonotone(chunks, i + 1, j);
      }
    }
  }

  lemma {:induction false} FindChunk(chunks: seq<nat>, n: nat, b: nat) returns (i: nat)
    requires n <= |chunks| && b < Offset(chunks, n)
    ensures i < n && InChunk(chunks, i, b)
  {
    assert chunks[..n][..n - 1] == chunks[..n - 1];
    if b < Offset(chunks, n - 1) {
      i := FindChunk(chunks, n - 1, b);
    } else {
      i := n - 1;
    }
  }

  /** The largest configurable chunk size makes the division trap at a granularity of 2 MB. */
  lemma LargestSettingTraps()
    ensures
      var setting: Word := (WORD - 1) / MB;
      AlignUp(ConfiguredChunkSize(Some(setting)), 2 * MB) == 0
  {
    AlignUpExact(ConfiguredChunkSize(Some((WORD - 1) / MB)), 2 * MB);
  }
}
