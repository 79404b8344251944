/** How one allocation is cut into chunks, in the 64-bit arithmetic of the source. */
module ChunkPlan {
  import opened Arith

  const MB := 0x10_0000
  const DEFAULT_CHUNK := 256 * MB

  /** The chunk-size variable of the environment, in megabytes. */
  datatype ChunkSizeEnv = Unset | Unparsable | Parsed(megabytes: nat)

  /** The configured chunk size in bytes; anything unusable falls back to the default. */
  function ConfiguredChunkSize(env: ChunkSizeEnv): (bytes: nat)
    requires env.Parsed? ==> env.megabytes < TWO_64
    ensures 0 < bytes <= TWO_64 - MB && bytes % MB == 0
    ensures env.Parsed? && 0 < env.megabytes * MB < TWO_64 ==> bytes == env.megabytes * MB
    ensures !(env.Parsed? && 0 < env.megabytes * MB < TWO_64) ==> bytes == DEFAULT_CHUNK
  {
    match env
    case Unset => DEFAULT_CHUNK
    case Unparsable => DEFAULT_CHUNK
    case Parsed(mb) =>
      if mb == 0 || mb > (TWO_64 - 1) / MB then DEFAULT_CHUNK else mb * MB
  }

  /** `((x + granularity - 1) / granularity) * granularity` on unsigned 64-bit operands. */
  function AlignUp64(x: nat, granularity: nat): (r: nat)
    requires 0 < granularity && x < TWO_64
    ensures x + granularity - 1 < TWO_64 ==> r == RoundUp(x, granularity)
  {
    var q := ((x + granularity - 1) % TWO_64) / granularity;
    MulMonotone(0, q, granularity);
    q * granularity
  }

  /**
   The aligned chunk size is zero, and the division that follows traps, exactly when
   adding the granularity to the configured size wraps around.
   */
  lemma AlignUp64Zero(x: nat, granularity: nat)
    requires 0 < granularity < TWO_64 && 0 < x < TWO_64
    ensures AlignUp64(x, granularity) == 0 <==> TWO_64 <= x + granularity - 1
  {
    if TWO_64 <= x + granularity - 1 {
      DivModUnique(x + granularity - 1, TWO_64, 1, x + granularity - 1 - TWO_64);
      DivModUnique(x + granularity - 1 - TWO_64, granularity, 0, x + granularity - 1 - TWO_64);
    }
  }

  /** The largest chunk size that can be configured, in megabytes. */
  const LARGEST_CHUNK := Parsed(0xFFF_FFFF_FFFF)

  /** With it and a granularity of two megabytes, the aligned chunk size is zero. */
  lemma LargestChunkAlignsToZero()
    ensures AlignUp64(ConfiguredChunkSize(LARGEST_CHUNK), 2 * MB) == 0
  {
    assert ConfiguredChunkSize(LARGEST_CHUNK) == TWO_64 - MB;
    AlignUp64Zero(TWO_64 - MB, 2 * MB);
  }

  /** The sum of the first `k` sizes. */
  function Offset(sizes: seq<nat>, k: nat): nat
    requires k <= |sizes|
  {
    if k == 0 then 0 else Offset(sizes, k - 1) + sizes[k - 1]
  }

  /** Whole chunks and then the rest, all positive multiples of the granularity, that add up to `total`. */
  ghost predicate IsPlan(sizes: seq<nat>, total: nat, chunk: nat, granularity: nat)
    requires 0 < granularity
  {
    && (forall i :: 0 <= i < |sizes| ==> 0 < sizes[i] <= chunk && sizes[i] % granularity == 0)
    && (forall i :: 0 <= i < |sizes| - 1 ==> sizes[i] == chunk)
    && Offset(sizes, |sizes|) == total
  }

  /** The number of chunks, `(alignedSize + chunk - 1) / chunk` on unsigned 64-bit operands. */
  function NumChunks(alignedSize: nat, chunk: nat): nat
    requires 0 < chunk
  {
    ((alignedSize + chunk - 1) % TWO_64) / chunk
  }

  lemma {:induction false} OffsetAppend(sizes: seq<nat>, x: nat, k: nat)
    requires k <= |sizes|
    ensures Offset(sizes + [x], k) == Offset(sizes, k)
    ensures Offset(sizes + [x], |sizes| + 1) == Offset(sizes + [x], |sizes|) + x
  {
    if k > 0 { OffsetAppend(sizes, x, k - 1); }
  }

  lemma MultiplesSubtract(a: int, b: int, g: int)
    requires 0 < g && a % g == 0 && b % g == 0
    ensures (a - b) % g == 0
  {
    var p, q := a / g, b / g;
    assert a - b == p * g - q * g == (p - q) * g;
    DivModUnique(a - b, g, p - q, 0);
  }

  /** Without a wrap-around the number of chunks is the ceiling of the quotient. */
  lemma NumChunksCeiling(alignedSize: nat, chunk: nat)
    requires 0 < chunk && alignedSize + chunk - 1 < TWO_64
    ensures var n := NumChunks(alignedSize, chunk);
            alignedSize <= n * chunk && (n > 0 ==> (n - 1) * chunk < alignedSize)
  {
    var n := NumChunks(alignedSize, chunk);
    assert alignedSize + chunk - 1 == n * chunk + (alignedSize + chunk - 1) % chunk;
    MulStep(n - 1, chunk);
  }

  /** With a wrap-around there are no chunks at all. */
  lemma NumChunksWraps(alignedSize: nat, chunk: nat)
    requires 0 < chunk < TWO_64 && alignedSize < TWO_64 <= alignedSize + chunk - 1
    ensures NumChunks(alignedSize, chunk) == 0
  {
    var x := alignedSize + chunk - 1;
    DivModUnique(x, TWO_64, 1, x - TWO_64);
    DivModUnique(x - TWO_64, chunk, 0, x - TWO_64);
  }

  /** With the largest chunk size and a granularity of one megabyte, two megabytes are cut into no chunks. */
  lemma LargestChunkWraps()
    ensures var chunk := AlignUp64(ConfiguredChunkSize(LARGEST_CHUNK), MB);
            chunk == TWO_64 - MB && NumChunks(2 * MB, chunk) == 0
  {
    assert ConfiguredChunkSize(LARGEST_CHUNK) == TWO_64 - MB;
    RoundUpLeast(TWO_64 - MB, MB, TWO_64 - MB);
    NumChunksWraps(2 * MB, TWO_64 - MB);
  }

  /** The size of chunk `i`: what is left of the aligned size, or a whole chunk if that is less. */
  function ChunkSize(alignedSize: nat, chunk: nat, i: nat): nat {
    var left := (alignedSize - i * chunk) % TWO_64;
    if left < chunk then left else chunk
  }

  lemma ChunkSizeStep(alignedSize: nat, chunk: nat, granularity: nat, i: nat)
    requires 0 < granularity && 0 < chunk && alignedSize + chunk - 1 < TWO_64
    requires alignedSize % granularity == 0 && chunk % granularity == 0
    requires i < NumChunks(alignedSize, chunk)
    ensures var size, n := ChunkSize(alignedSize, chunk, i), NumChunks(alignedSize, chunk);
            && 0 < size <= chunk && size % granularity == 0
            && i * chunk + size == (if i + 1 < n then (i + 1) * chunk else alignedSize)
            && (i + 1 < n ==> size == chunk)
  {
    var n := NumChunks(alignedSize, chunk);
    NumChunksCeiling(alignedSize, chunk);
    MulMonotone(i, n - 1, chunk);
    MulMonotone(0, i, chunk);
    MulStep(i, chunk);
    if i + 1 < n { MulMonotone(i + 1, n - 1, chunk); }
    DivModUnique(alignedSize - i * chunk, TWO_64, 0, alignedSize - i * chunk);
    MultipleOfMultiple(i, chunk, granularity);
    MultiplesSubtract(alignedSize, i * chunk, granularity);
  }

  /**
   Fills in the chunk sizes.  The plan covers the aligned size exactly when the ceiling
   division does not wrap around; when it wraps, the plan is empty.
   */
  method PlanChunks(alignedSize: nat, chunk: nat, granularity: nat) returns (chunkSizes: seq<nat>)
    requires 0 < granularity && alignedSize < TWO_64 && 0 < chunk < TWO_64
    requires alignedSize % granularity == 0 && chunk % granularity == 0
    ensures |chunkSizes| == NumChunks(alignedSize, chunk)
    ensures IsPlan(chunkSizes, alignedSize, chunk, granularity) <==> alignedSize + chunk - 1 < TWO_64
    ensures TWO_64 <= alignedSize + chunk - 1 ==> chunkSizes == [] && alignedSize > 0
  {
    var numChunks := NumChunks(alignedSize, chunk);
    ghost var exact := alignedSize + chunk - 1 < TWO_64;
    if exact { NumChunksCeiling(alignedSize, chunk); } else { NumChunksWraps(alignedSize, chunk); }
    chunkSizes := [];
    var i := 0;
    while i < numChunks
      invariant 0 <= i == |chunkSizes| <= numChunks
      invariant forall j :: 0 <= j < i ==> 0 < chunkSizes[j] <= chunk && chunkSizes[j] % granularity == 0
      invariant forall j :: 0 <= j < i && j < numChunks - 1 ==> chunkSizes[j] == chunk
      invariant Offset(chunkSizes, i) == if i < numChunks then i * chunk else if exact then alignedSize else 0
    {
      ChunkSizeStep(alignedSize, chunk, granularity, i);
      var size := ChunkSize(alignedSize, chunk, i);
      OffsetAppend(chunkSizes, size, i);
      chunkSizes := chunkSizes + [size];
      i := i + 1;
    }
  }

  lemma MultipleOfMultiple(i: int, chunk: int, granularity: int)
    requires 0 < granularity && chunk % granularity == 0
    ensures (i * chunk) % granularity == 0
  {
    var q := chunk / granularity;
    assert i * chunk == i * (q * granularity) == (i * q) * granularity;
    DivModUnique(i * chunk, granularity, i * q, 0);
  }

  /**
   The chunk plan of an allocation, from the configured chunk size.  A configured size that the
   granularity makes wrap around would be a division by zero (see `AlignUp64Zero`).
   */
  method PlanAllocation(alignedSize: nat, configured: nat, granularity: nat) returns (chunkSizes: seq<nat>)
    requires 0 < granularity && alignedSize < TWO_64 && alignedSize % granularity == 0
    requires 0 < configured && configured + granularity - 1 < TWO_64
    ensures var chunk := RoundUp(configured, granularity);
            IsPlan(chunkSizes, alignedSize, chunk, granularity) <==> alignedSize + chunk - 1 < TWO_64
    ensures |chunkSizes| == NumChunks(alignedSize, RoundUp(configured, granularity))
    ensures TWO_64 <= alignedSize + RoundUp(configured, granularity) - 1 ==> chunkSizes == []
    ensures Offset(chunkSizes, |chunkSizes|) == alignedSize <==> alignedSize + RoundUp(configured, granularity) - 1 < TWO_64
    ensures forall i :: 0 <= i < |chunkSizes| ==> 0 < chunkSizes[i]
    ensures Offset(chunkSizes, |chunkSizes|) <= alignedSize
  {
    AlignUp64Zero(configured, granularity);
    chunkSizes := PlanChunks(alignedSize, AlignUp64(configured, granularity), granularity);
  }
}
