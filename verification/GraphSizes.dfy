/** Choosing which batch sizes get a captured graph, within the number of device streams. */
module GraphSizes {
  import opened Arith
  import opened Lists

  const MAX_CAPTURE_SIZE := 1800
  const CP_ADDITIONAL_STREAM_NUM := 100

  datatype Setup = Setup(
    layers: nat, draftLayers: Option<nat>, isMoe: bool,
    dpSize: nat, tpSize: nat, pcpSize: nat, dcpSize: nat,
    expertParallel: bool, multistreamSharedExpert: bool, aivMode: bool)

  function Flag(b: bool): nat { if b then 1 else 0 }

  /** Streams that one graph takes for each unit of parallelism. */
  function ResourcesPerGraph(s: Setup): (r: nat)
    ensures 0 < r
  {
    s.layers + 1 + match s.draftLayers case None => 0 case Some(d) => d + 1
  }

  function CommGroups(s: Setup): nat { Flag(s.dpSize > 1) + Flag(s.tpSize > 1) }

  function ParallelFactor(s: Setup): (r: nat)
    ensures 0 < r
  {
    if s.aivMode then
      1 + CommGroups(s) + Flag(s.expertParallel) + Flag(s.multistreamSharedExpert) + Flag(s.isMoe && s.dpSize > 1)
    else 1 + CommGroups(s) * 2
  }

  /** Streams kept back before the rest is divided between the graphs. */
  function Reserved(s: Setup): nat {
    if s.aivMode then (if s.isMoe then 0 else ParallelFactor(s) * ResourcesPerGraph(s))
    else
      CP_ADDITIONAL_STREAM_NUM * (Flag(s.pcpSize > 1) + Flag(s.dcpSize > 1)) + CommGroups(s) * 40
  }

  /** How many graphs fit: `floor(streams / resources / factor)`. */
  function MaxNumBatchSizes(s: Setup): int {
    ((MAX_CAPTURE_SIZE - Reserved(s)) as real / ResourcesPerGraph(s) as real / ParallelFactor(s) as real).Floor
  }

  /** The division over the reals rounds down the division by the product. */
  lemma FloorOfQuotients(a: int, b: nat, c: nat)
    requires 0 < b && 0 < c
    ensures var m := (a as real / b as real / c as real).Floor;
            m * (b * c) <= a < (m + 1) * (b * c)
  {
    MulMonotone(1, b, c);
    QuotientsOfProduct(a as real, b as real, c as real, (b * c) as real);
    FloorOfQuotient(a, b * c);
  }

  lemma QuotientsOfProduct(a: real, b: real, c: real, bc: real)
    requires 0.0 < b && 0.0 < c && bc == b * c
    ensures bc != 0.0 && a / b / c == a / bc
  {
    assert 0.0 < bc by { RealMulMonotone(0.0, b, c); }
    var q := a / b / c;
    assert q * c * b == a / b * b == a;
    assert q * bc == q * c * b;
  }

  /** The streams that `n` graphs take, with those kept back. */
  function Streams(s: Setup, n: nat): int {
    n * (ResourcesPerGraph(s) * ParallelFactor(s)) + Reserved(s)
  }

  /** A number of graphs stays within the streams exactly when it is at most the computed maximum. */
  lemma WithinBudget(s: Setup, n: nat)
    ensures n <= MaxNumBatchSizes(s) <==> Streams(s, n) <= MAX_CAPTURE_SIZE
  {
    var max, per := MaxNumBatchSizes(s), ResourcesPerGraph(s) * ParallelFactor(s);
    FloorOfQuotients(MAX_CAPTURE_SIZE - Reserved(s), ResourcesPerGraph(s), ParallelFactor(s));
    MulMonotone(0, ResourcesPerGraph(s), ParallelFactor(s));
    if n <= max { MulMonotone(n, max, per); } else { MulMonotone(max + 1, n, per); }
  }

  /**
   The budget written out.  In AIV mode a dense model pays for one graph more; otherwise every communication
   group costs 40 streams and every kind of context parallelism 100.
   */
  lemma BudgetIs(s: Setup, n: nat)
    ensures var resources := s.layers + 1 + (if s.draftLayers.Some? then s.draftLayers.value + 1 else 0);
            var dp, tp := if s.dpSize > 1 then 1 else 0, if s.tpSize > 1 then 1 else 0;
            var expert, shared := if s.expertParallel then 1 else 0, if s.multistreamSharedExpert then 1 else 0;
            var pcp, dcp := if s.pcpSize > 1 then 1 else 0, if s.dcpSize > 1 then 1 else 0;
            n <= MaxNumBatchSizes(s) <==>
              if s.aivMode && s.isMoe then n * (resources * (1 + 2 * dp + tp + expert + shared)) <= 1800
              else if s.aivMode then (n + 1) * (resources * (1 + dp + tp + expert + shared)) <= 1800
              else n * (resources * (1 + 2 * dp + 2 * tp)) + 40 * (dp + tp) + 100 * (pcp + dcp) <= 1800
  {
    WithinBudget(s, n);
    hide MaxNumBatchSizes;
    MulStep(n, ResourcesPerGraph(s) * ParallelFactor(s));
  }

  // ----- sampling

  /** Python's `round`: to the nearest integer, a tie to the even one. */
  function Round(x: real): (r: int)
    ensures r as real - 0.5 <= x <= r as real + 0.5
  {
    var low := x.Floor;
    if x - low as real < 0.5 then low
    else if x - low as real > 0.5 then low + 1
    else if low % 2 == 0 then low
    else low + 1
  }

  /** Rounding two numbers that are more than one apart keeps them apart. */
  lemma RoundApart(x: real, y: real)
    requires x + 1.0 < y
    ensures Round(x) < Round(y)
  {
  }

  /** The ends of the sampled range are hit exactly. */
  lemma RoundExact(k: int)
    ensures Round(k as real) == k
  {
  }

  /** `indices` picks `sampled` from `original` in order, with the first and the last element. */
  ghost predicate IsSample(original: seq<int>, sampled: seq<int>, indices: seq<int>) {
    && |indices| == |sampled| >= 2 && StrictlyAscending(indices)
    && indices[0] == 0 && indices[|indices| - 1] == |original| - 1
    && (forall i :: 0 <= i < |indices| ==> 0 <= indices[i] < |original| && sampled[i] == original[indices[i]])
    && forall i :: 0 <= i < |indices| ==> IsNearest(|original|, |indices|, i, indices[i])
  }

  /** `index` is an integer nearest to `i * (n - 1) / (m - 1)`. */
  predicate IsNearest(n: nat, m: nat, i: nat, index: int) {
    -(m - 1) <= 2 * (index * (m - 1) - i * (n - 1)) <= m - 1
  }

  function Step(n: nat, m: nat): real
    requires 2 <= m
  {
    (n - 1) as real / (m - 1) as real
  }

  lemma StepIs(n: nat, m: nat)
    requires 2 <= m < n
    ensures 1.0 < Step(n, m) && (m - 1) as real * Step(n, m) == (n - 1) as real
  {
    var d := (m - 1) as real;
    assert Step(n, m) * d == (n - 1) as real;
    if Step(n, m) <= 1.0 { RealMulMonotone(Step(n, m), 1.0, d); }
  }

  /** The rounded multiple of the step. */
  function IndexAt(n: nat, m: nat, i: nat): int
    requires 2 <= m
  {
    Round(i as real * Step(n, m))
  }

  lemma ProductOfReals(a: int, b: int)
    ensures a as real * b as real == (a * b) as real
  {
  }

  lemma Spread(a: real, b: real, c: real, d: real)
    ensures (a - b + c) * d == a * d - b * d + c * d
  {
  }

  lemma ScaledAtLeast(a: real, b: real, h: real, d: real, ad: real, bd: real, hd: real)
    requires 0.0 < d && b <= a + h && ad == a * d && bd == b * d && hd == h * d
    ensures bd <= ad + hd
  {
    Spread(a, b, h, d);
    RealMulMonotone(0.0, a - b + h, d);
    assert 0.0 * d == 0.0;
  }

  lemma Reassociate(a: real, b: real, c: real)
    ensures a * b * c == a * (b * c) == a * (c * b)
  {
  }

  lemma WithinHalf(p: int, q: int, k: int, half: real)
    requires k as real == 2.0 * half && p as real <= q as real + half && q as real <= p as real + half
    ensures -k <= 2 * (p - q) <= k
  {
    assert (2 * (p - q)) as real == 2.0 * (p as real - q as real);
  }

  /** A number within a half of `x`, scaled by `k`. */
  lemma ScaledHalf(r: int, x: real, k: int, q: int)
    requires 0 < k && r as real - 0.5 <= x <= r as real + 0.5 && x * k as real == q as real
    ensures -k <= 2 * (r * k - q) <= k
  {
    ProductOfReals(r, k);
    var half := 0.5 * k as real;
    ScaledAtLeast(x, r as real, 0.5, k as real, q as real, (r * k) as real, half);
    ScaledAtLeast(r as real, x, 0.5, k as real, (r * k) as real, q as real, half);
    WithinHalf(r * k, q, k, half);
  }

  /** The samples are spaced evenly: every index is a nearest integer. */
  lemma IndexNearest(n: nat, m: nat, i: nat)
    requires 2 <= m < n
    ensures IsNearest(n, m, i, IndexAt(n, m, i))
  {
    StepIs(n, m);
    var step := Step(n, m);
    hide Step, Round;
    Reassociate(i as real, step, (m - 1) as real);
    ProductOfReals(i, n - 1);
    ScaledHalf(IndexAt(n, m, i), i as real * step, m - 1, i * (n - 1));
  }

  /** The sampled indices increase strictly from 0 to `n - 1`. */
  lemma IndicesAscend(n: nat, m: nat, i: nat)
    requires 2 <= m < n && i + 1 < m
    ensures IndexAt(n, m, i) < IndexAt(n, m, i + 1)
    ensures IndexAt(n, m, 0) == 0 && IndexAt(n, m, m - 1) == n - 1
  {
    StepIs(n, m);
    assert (i + 1) as real * Step(n, m) == i as real * Step(n, m) + Step(n, m);
    RoundApart(i as real * Step(n, m), (i + 1) as real * Step(n, m));
    RoundExact(n - 1);
    assert 0 as real * Step(n, m) == 0.0;
    RoundExact(0);
  }

  /** The sampling branch for a maximum that allows both ends to be kept. */
  method SampleSizes(original: seq<int>, m: nat) returns (sampled: seq<int>, ghost indices: seq<int>)
    requires 2 <= m < |original|
    ensures |sampled| == m && IsSample(original, sampled, indices)
  {
    hide IndexAt, IsSample, IsNearest;
    var n := |original|;
    var picked := [];
    var i := 0;
    while i < m
      invariant 0 <= i == |picked| <= m && StrictlyAscending(picked)
      invariant forall j :: 0 <= j < i ==> picked[j] == IndexAt(n, m, j)
    {
      if i > 0 { IndicesAscend(n, m, i - 1); }
      picked := picked + [IndexAt(n, m, i)];
      i := i + 1;
    }
    IndicesAscend(n, m, 0);
    picked := picked[0 := 0][m - 1 := n - 1];
    forall j | 0 <= j < m
      ensures IsNearest(n, m, j, picked[j])
    {
      IndexNearest(n, m, j);
    }
    sampled := PickAll(original, picked);
    indices := picked;
  }

  /** `[original[i] for i in indices]` for indices that run from the first to the last element. */
  function PickAll(original: seq<int>, indices: seq<int>): (sampled: seq<int>)
    requires |indices| >= 2 && StrictlyAscending(indices)
    requires indices[0] == 0 && indices[|indices| - 1] == |original| - 1
    requires forall i :: 0 <= i < |indices| ==> IsNearest(|original|, |indices|, i, indices[i])
    ensures |sampled| == |indices| && IsSample(original, sampled, indices)
  {
    seq(|indices|, i requires 0 <= i < |indices| => original[indices[i]])
  }

  class CompilationConfig {
    var captureSizes: Option<seq<int>>
    var maxCaptureSize: Option<int>

    constructor (captureSizes: Option<seq<int>>, maxCaptureSize: Option<int>)
      ensures this.captureSizes == captureSizes && this.maxCaptureSize == maxCaptureSize
    {
      this.captureSizes, this.maxCaptureSize := captureSizes, maxCaptureSize;
    }

    /** `update_cudagraph_capture_sizes`: refused iff sizes are already set and their maximum disagrees. */
    method SetCaptureSizes(sizes: seq<int>) returns (ok: bool)
      modifies this
      ensures var top := if sizes != [] then sizes[|sizes| - 1] else 0;
              && ok == !(old(maxCaptureSize).Some? && old(maxCaptureSize).value != top && old(captureSizes).Some?)
              && captureSizes == (if ok then Some(sizes) else old(captureSizes))
              && maxCaptureSize == (if ok then Some(top) else old(maxCaptureSize))
    {
      var top := if sizes != [] then sizes[|sizes| - 1] else 0;
      if maxCaptureSize.Some? && maxCaptureSize.value != top {
        if captureSizes.Some? { return false; }
      }
      maxCaptureSize := Some(top);
      captureSizes := Some(sizes);
      return true;
    }

    /**
     `update_aclgraph_sizes`.  Without a model the sizes are cleared.  Otherwise it fails, with the sizes cleared,
     exactly when there are too many sizes and the streams do not allow two graphs; and when
     it succeeds the graphs stay within the streams and the kept sizes are the original ones
     or a sample of them that keeps the first and the last.
     */
    method UpdateAclgraphSizes(hasModel: bool, s: Setup) returns (ok: bool, ghost indices: seq<int>)
      requires captureSizes.Some?
      modifies this
      ensures !hasModel ==> ok && captureSizes == None && maxCaptureSize == old(maxCaptureSize)
      ensures hasModel ==>
                var original := old(captureSizes).value;
                && (ok <==> |original| <= MaxNumBatchSizes(s) || 2 <= MaxNumBatchSizes(s))
                && (!ok ==> captureSizes == None)
                && (ok ==> captureSizes.Some? && Streams(s, |captureSizes.value|) <= MAX_CAPTURE_SIZE)
                && (ok && |original| <= MaxNumBatchSizes(s) ==>
                      captureSizes == old(captureSizes) && maxCaptureSize == old(maxCaptureSize))
                && (ok && MaxNumBatchSizes(s) < |original| ==>
                      && |captureSizes.value| == MaxNumBatchSizes(s)
                      && IsSample(original, captureSizes.value, indices)
                      && maxCaptureSize == Some(original[|original| - 1]))
    {
      indices := [];
      var original := captureSizes.value;
      captureSizes := None;
      if !hasModel { return true, []; }
      var maxNumBatchSizes := MaxNumBatchSizes(s);
      if maxNumBatchSizes < |original| {
        if maxNumBatchSizes < 2 { return false, []; }
        WithinBudget(s, maxNumBatchSizes);
        var sampled;
        sampled, indices := SampleSizes(original, maxNumBatchSizes);
        ok := SetCaptureSizes(sampled);
      } else {
        WithinBudget(s, |original|);
        captureSizes := Some(original);
        ok := true;
      }
    }
  }

  // ----- a setup for which the update fails

  /** 126 layers and 61 draft layers on two data-parallel ranks with eight tensor-parallel ones each. */
  const LARGE := Setup(126, Some(61), false, 2, 8, 1, 1, false, false, false)

  lemma OneGraphFits()
    ensures MaxNumBatchSizes(LARGE) == 1
  {
    WithinBudget(LARGE, 1);
    WithinBudget(LARGE, 2);
    assert Streams(LARGE, 1) <= MAX_CAPTURE_SIZE < Streams(LARGE, 2);
  }

  /** With two sizes to capture, the update of this setup fails and leaves no sizes. */
  method TwoSizesFail() returns (config: CompilationConfig, ok: bool)
    ensures fresh(config) && !ok && config.captureSizes == None
  {
    config := new CompilationConfig(Some([1, 2]), Some(2));
    OneGraphFits();
    ghost var indices;
    ok, indices := config.UpdateAclgraphSizes(true, LARGE);
  }
}
