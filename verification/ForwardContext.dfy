/** Padding and the MC2 token mask that a forward step sets up, for both model runners. */
module ForwardContext {
  import opened Arith
  import opened Lists

  const SP_THRESHOLD := 1000
  const DEFAULT_TOKEN_CAP := 512

  /**
   What one rank knows when it builds the context of a step.  `acrossDp` are the token counts of all
   ranks when they were exchanged, and `metadataTokens` the count of the attention metadata.
   */
  datatype StepInput = StepInput(
    numTokens: Option<nat>, metadataTokens: Option<nat>, numActualTokens: Option<nat>,
    dpWorldSize: nat, acrossDp: Option<seq<nat>>, tpSize: nat,
    isMoe: bool, drafterIsMoe: bool, isDraft: bool, enableSp: bool, flashComm2: bool)
  {
    /** Exchanged counts name at least one rank, and there is a tensor-parallel rank. */
    predicate Valid() {
      0 < tpSize && (acrossDp.Some? ==> acrossDp.value != [])
    }
  }

  /** What the step records; a field that is not set is `None`. */
  datatype Context = Context(
    flashCommV1: bool, flashCommV2: bool, padSize: int, paddedLength: Option<int>,
    maxTokensAcrossDp: Option<nat>, paddedNumTokens: Option<nat>, mask: Option<seq<bool>>)

  /** The largest element of a non-empty list. */
  function Largest(xs: seq<nat>): (m: nat)
    requires xs != []
    ensures m in xs && forall i :: 0 <= i < |xs| ==> xs[i] <= m
  {
    if |xs| == 1 then xs[0]
    else
      var rest := Largest(xs[1..]);
      assert forall i :: 1 <= i < |xs| ==> xs[i] == xs[1..][i - 1];
      if rest < xs[0] then xs[0] else rest
  }

  /** `math.ceil(a / b)` over the rationals. */
  function CeilOfQuotient(a: nat, b: nat): int
    requires 0 < b
  {
    var q := a as real / b as real;
    if q.Floor as real == q then q.Floor else q.Floor + 1
  }

  lemma CeilIsRoundUp(a: nat, b: nat)
    requires 0 < b
    ensures CeilOfQuotient(a, b) * b == RoundUp(a, b)
  {
    FloorOfQuotient(a, b);
    var c := CeilOfQuotient(a, b);
    MulStep(c - 1, b);
    DivModUnique(a + b - 1, b, c, a + b - 1 - c * b);
  }

  // ----- the shared mask buffer

  /** A buffer after a step wrote its mask: `padded` entries, the first `actual` of them true. */
  function Written(buffer: seq<bool>, padded: nat, actual: nat): (r: seq<bool>)
    ensures |r| == |buffer|
    ensures forall i :: 0 <= i < |r| ==> r[i] == if i < padded then i < actual else buffer[i]
  {
    seq(|buffer|, i requires 0 <= i < |buffer| => if i < padded then i < actual else buffer[i])
  }

  /** The view that the step hands out: a slice of the buffer, clipped to its length. */
  function ViewOf(buffer: seq<bool>, padded: nat): seq<bool> {
    buffer[..if padded < |buffer| then padded else |buffer|]
  }

  /** The two slice assignments on the view of the buffer. */
  method WriteMask(buffer: array<bool>, padded: nat, actual: nat)
    modifies buffer
    ensures buffer[..] == Written(old(buffer[..]), padded, actual)
  {
    var length := if padded < buffer.Length then padded else buffer.Length;
    var split := if actual < length then actual else length;
    var i := 0;
    while i < split
      invariant 0 <= i <= split
      invariant forall j :: 0 <= j < buffer.Length ==> buffer[j] == if j < i then true else old(buffer[j])
    {
      buffer[i] := true;
      i := i + 1;
    }
    while i < length
      invariant split <= i <= length
      invariant forall j :: 0 <= j < buffer.Length ==>
                  buffer[j] == if j < split then true else if j < i then false else old(buffer[j])
    {
      buffer[i] := false;
      i := i + 1;
    }
  }

  /** A step of a run, as far as the mask is concerned. */
  datatype MaskStep = MaskStep(padded: nat, actual: nat)

  function AfterRun(buffer: seq<bool>, steps: seq<MaskStep>): (r: seq<bool>)
    ensures |r| == |buffer|
  {
    if steps == [] then buffer
    else
      var last := steps[|steps| - 1];
      Written(AfterRun(buffer, steps[..|steps| - 1]), last.padded, last.actual)
  }

  /** At any position the newest step that covers it decides; what no step covers is as it was. */
  lemma {:induction false} LastCoveringStepDecides(buffer: seq<bool>, steps: seq<MaskStep>, i: nat, t: nat)
    requires i < |buffer| && t <= |steps|
    requires forall u :: t <= u < |steps| ==> steps[u].padded <= i
    requires t > 0 ==> i < steps[t - 1].padded
    ensures AfterRun(buffer, steps)[i] == if t == 0 then buffer[i] else i < steps[t - 1].actual
  {
    if t < |steps| {
      LastCoveringStepDecides(buffer, steps[..|steps| - 1], i, t);
    }
  }

  lemma {:induction false} RunConcat(buffer: seq<bool>, xs: seq<MaskStep>, ys: seq<MaskStep>)
    ensures AfterRun(buffer, xs + ys) == AfterRun(AfterRun(buffer, xs), ys)
  {
    if ys == [] {
      assert xs + ys == xs;
    } else {
      assert (xs + ys)[..|xs + ys| - 1] == xs + ys[..|ys| - 1];
      RunConcat(buffer, xs, ys[..|ys| - 1]);
    }
  }

  // ----- when a view is still the mask of its own step

  function Clamp(x: int, lo: int, hi: int): int {
    if x < lo then lo else if hi < x then hi else x
  }

  /** Between `lo` and `hi`, masks that end at `x` and at `y` are the same. */
  predicate SameBetween(x: nat, y: nat, lo: nat, hi: nat) {
    lo >= hi || Clamp(x, lo, hi) == Clamp(y, lo, hi)
  }

  lemma SameBetweenIs(x: nat, y: nat, lo: nat, hi: nat)
    ensures SameBetween(x, y, lo, hi) <==> forall i: nat :: lo <= i < hi ==> Below(i, x) == Below(i, y)
  {
    if lo < hi && Clamp(x, lo, hi) != Clamp(y, lo, hi) {
      var i: nat := if Clamp(x, lo, hi) < Clamp(y, lo, hi) then Clamp(x, lo, hi) else Clamp(y, lo, hi);
      assert Below(i, x) != Below(i, y);
    }
  }

  predicate Below(i: nat, x: nat) { i < x }

  /**
   Later steps agree with a mask that ends at `actual`, on the positions from `covered` to `length`: from the
   newest step back, each agrees on the positions that it covers and no newer step does.
   */
  predicate LaterAgree(later: seq<MaskStep>, actual: nat, covered: nat, length: nat)
    decreases |later|
  {
    later == []
    || var last := later[|later| - 1];
       && SameBetween(last.actual, actual, covered, if last.padded < length then last.padded else length)
       && LaterAgree(later[..|later| - 1], actual, if covered < last.padded then last.padded else covered, length)
  }

  lemma {:induction false} LaterAgreeIs(buffer: seq<bool>, later: seq<MaskStep>, actual: nat, covered: nat, length: nat)
    requires length <= |buffer| && forall i :: 0 <= i < length ==> buffer[i] == Below(i, actual)
    ensures LaterAgree(later, actual, covered, length)
       <==> forall i :: covered <= i < length ==> AfterRun(buffer, later)[i] == Below(i, actual)
    decreases |later|
  {
    if later != [] {
      var last, rest := later[|later| - 1], later[..|later| - 1];
      var hi := if last.padded < length then last.padded else length;
      var next := if covered < last.padded then last.padded else covered;
      SameBetweenIs(last.actual, actual, covered, hi);
      LaterAgreeIs(buffer, rest, actual, next, length);
      var after, before := AfterRun(buffer, later), AfterRun(buffer, rest);
      assert forall i :: covered <= i < hi ==> after[i] == Below(i, last.actual);
      assert forall i :: next <= i < length ==> after[i] == before[i];
    }
  }

  /** The mask of one step: its actual tokens true and its padding false, as far as the buffer reaches. */
  function OwnMask(size: nat, step: MaskStep): seq<bool> {
    seq(if step.padded < size then step.padded else size, i requires 0 <= i => i < step.actual)
  }

  /**
   The mask that a step hands out is a view of the shared buffer.  It is the step's own mask when it is
   handed out, and it still is after any later steps exactly when these agree with it as `LaterAgree` says.
   */
  lemma ViewIsOwnMask(buffer: seq<bool>, earlier: seq<MaskStep>, step: MaskStep, later: seq<MaskStep>)
    ensures ViewOf(AfterRun(buffer, earlier + [step]), step.padded) == OwnMask(|buffer|, step)
    ensures ViewOf(AfterRun(buffer, earlier + [step] + later), step.padded) == OwnMask(|buffer|, step)
       <==> LaterAgree(later, step.actual, 0, |OwnMask(|buffer|, step)|)
  {
    var written := AfterRun(buffer, earlier + [step]);
    assert (earlier + [step])[..|earlier|] == earlier;
    RunConcat(buffer, earlier + [step], later);
    LaterViewIsOwn(written, step, later);
  }

  lemma LaterViewIsOwn(written: seq<bool>, step: MaskStep, later: seq<MaskStep>)
    requires forall i :: 0 <= i < |written| && i < step.padded ==> written[i] == (i < step.actual)
    ensures ViewOf(written, step.padded) == OwnMask(|written|, step)
    ensures ViewOf(AfterRun(written, later), step.padded) == OwnMask(|written|, step)
       <==> LaterAgree(later, step.actual, 0, |OwnMask(|written|, step)|)
  {
    var own := OwnMask(|written|, step);
    LaterAgreeIs(written, later, step.actual, 0, |own|);
    var view := ViewOf(AfterRun(written, later), step.padded);
    hide AfterRun, LaterAgree;
    if view == own {
      assert forall i :: 0 <= i < |own| ==> AfterRun(written, later)[i] == own[i];
    } else if LaterAgree(later, step.actual, 0, |own|) {
      assert forall i :: 0 <= i < |own| ==> view[i] == own[i];
    }
  }

  // ----- what a context must be

  predicate FlashCommV1(s: StepInput) {
    s.enableSp && s.numTokens.Some? &&
    if (if s.isDraft then s.drafterIsMoe else s.isMoe) then true
    else !s.isDraft && s.numTokens.value > SP_THRESHOLD
  }

  predicate FlashCommV2(s: StepInput) {
    s.flashComm2 && s.tpSize > 1 && s.numTokens.Some?
  }

  function TokensOf(s: StepInput): Option<nat> {
    if s.numTokens.Some? then s.numTokens else s.metadataTokens
  }

  predicate Exchanged(s: StepInput) {
    s.dpWorldSize > 1 && s.acrossDp.Some?
  }

  /** The largest count of the group, as far as the rank knows it. */
  function MaxTokens(s: StepInput): Option<nat>
    requires s.Valid()
  {
    if Exchanged(s) then Some(Largest(s.acrossDp.value)) else TokensOf(s)
  }

  /** The length every rank pads to: the least multiple of the TP size that covers the largest rank. */
  function Target(s: StepInput): Option<nat>
    requires s.Valid()
  {
    match MaxTokens(s) case None => None case Some(m) => Some(RoundUp(m, s.tpSize))
  }

  predicate PaddingOn(s: StepInput) {
    FlashCommV1(s) || FlashCommV2(s)
  }

  /** The context of a step on a rank whose mask buffer holds `buffer`. */
  ghost predicate IsContext(s: StepInput, buffer: Option<seq<bool>>, ctx: Context)
    requires s.Valid()
  {
    && ctx.flashCommV1 == FlashCommV1(s) && ctx.flashCommV2 == FlashCommV2(s)
    && ctx.maxTokensAcrossDp == MaxTokens(s)
    && ctx.paddedNumTokens == (if TokensOf(s).Some? then Target(s) else None)
    && (PaddingOn(s) ==> Target(s).Some? && s.numTokens.value + ctx.padSize == Target(s).value)
    && (!PaddingOn(s) ==> ctx.padSize == 0)
    && ctx.paddedLength == (if PaddingOn(s) && Exchanged(s) then Target(s) else None)
    && ctx.mask == match (buffer, TokensOf(s), Target(s))
                   case (Some(b), Some(n), Some(p)) =>
                     var actual := if s.numActualTokens.Some? then s.numActualTokens.value else n;
                     Some(ViewOf(Written(b, p, actual), p))
                   case _ => None
  }

  /**
   What the flags and the padding of a context are.  A mixture of experts uses sequence parallelism for any known
   count, a dense main model above 1000 tokens, a dense draft model never; the padding completes the count
   to a multiple of the TP size, or to the least one that no rank of the group exceeds.
   */
  lemma ContextIs(s: StepInput, buffer: Option<seq<bool>>, ctx: Context)
    requires s.Valid() && IsContext(s, buffer, ctx)
    ensures ctx.flashCommV1 <==>
              && s.enableSp && s.numTokens.Some?
              && (|| (s.isDraft && s.drafterIsMoe) || (!s.isDraft && s.isMoe)
                  || (!s.isDraft && !s.isMoe && 1000 < s.numTokens.value))
    ensures ctx.flashCommV2 <==> s.flashComm2 && 1 < s.tpSize && s.numTokens.Some?
    ensures !ctx.flashCommV1 && !ctx.flashCommV2 ==> ctx.padSize == 0 && ctx.paddedLength == None
    ensures (ctx.flashCommV1 || ctx.flashCommV2) && !(s.dpWorldSize > 1 && s.acrossDp.Some?) ==>
              ctx.paddedLength == None && 0 <= ctx.padSize < s.tpSize && (s.numTokens.value + ctx.padSize) % s.tpSize == 0
    ensures (ctx.flashCommV1 || ctx.flashCommV2) && s.dpWorldSize > 1 && s.acrossDp.Some? ==>
              var length := s.numTokens.value + ctx.padSize;
              && ctx.paddedLength == Some(length) && length % s.tpSize == 0
              && (forall i :: 0 <= i < |s.acrossDp.value| ==> s.acrossDp.value[i] <= length)
              && (exists i :: 0 <= i < |s.acrossDp.value| && length < s.acrossDp.value[i] + s.tpSize)
  {
    hide RoundUp, Written, ViewOf;
    if (ctx.flashCommV1 || ctx.flashCommV2) && s.dpWorldSize > 1 && s.acrossDp.Some? {
      var counts := s.acrossDp.value;
      var i :| 0 <= i < |counts| && counts[i] == Largest(counts);
      assert s.numTokens.value + ctx.padSize < counts[i] + s.tpSize;
    }
  }

  /** What a step writes to the mask buffer: nothing if it does not know its token count. */
  function MaskStepOf(s: StepInput): Option<MaskStep>
    requires s.Valid()
  {
    match (TokensOf(s), Target(s))
    case (Some(n), Some(p)) => Some(MaskStep(p, if s.numActualTokens.Some? then s.numActualTokens.value else n))
    case _ => None
  }

  predicate AllValid(inputs: seq<StepInput>) {
    forall t :: 0 <= t < |inputs| ==> inputs[t].Valid()
  }

  function MaskStepsOf(inputs: seq<StepInput>): seq<MaskStep>
    requires AllValid(inputs)
  {
    if inputs == [] then []
    else
      MaskStepsOf(inputs[..|inputs| - 1]) + StepsOf(inputs[|inputs| - 1])
  }

  /** The buffer of a rank, if it has one, after some steps. */
  function BufferAfter(buffer: Option<seq<bool>>, steps: seq<MaskStep>): Option<seq<bool>> {
    match buffer case None => None case Some(b) => Some(AfterRun(b, steps))
  }

  function StepsOf(s: StepInput): seq<MaskStep>
    requires s.Valid()
  {
    match MaskStepOf(s) case None => [] case Some(step) => [step]
  }

  lemma RoundUpIs(n: nat, tp: nat)
    requires 0 < tp
    ensures (n + tp - 1) / tp * tp == RoundUp(n, tp)
  {
  }

  lemma NoSteps(buffer: Option<seq<bool>>)
    ensures BufferAfter(buffer, []) == buffer
  {
  }

  lemma BufferConcat(buffer: Option<seq<bool>>, xs: seq<MaskStep>, ys: seq<MaskStep>)
    ensures BufferAfter(BufferAfter(buffer, xs), ys) == BufferAfter(buffer, xs + ys)
  {
    if buffer.Some? { RunConcat(buffer.value, xs, ys); }
  }

  lemma MaskStepsAppend(inputs: seq<StepInput>, t: nat)
    requires t < |inputs| && AllValid(inputs)
    ensures MaskStepsOf(inputs[..t + 1]) == MaskStepsOf(inputs[..t]) + StepsOf(inputs[t])
  {
    assert inputs[..t + 1][..t] == inputs[..t];
  }

  lemma OneStep(b: seq<bool>, step: MaskStep)
    ensures AfterRun(b, [step]) == Written(b, step.padded, step.actual)
  {
    assert [step][..0] == [];
  }

  lemma NoInputs()
    ensures MaskStepsOf([]) == []
  {
  }

  /** Each context is that of its input, on the buffer that the steps before it left. */
  ghost predicate AreContexts(inputs: seq<StepInput>, buffer: Option<seq<bool>>, contexts: seq<Context>)
    requires AllValid(inputs)
  {
    && |contexts| <= |inputs|
    && forall t :: 0 <= t < |contexts| ==>
         IsContext(inputs[t], BufferAfter(buffer, MaskStepsOf(inputs[..t])), contexts[t])
  }

  lemma AppendContext(inputs: seq<StepInput>, buffer: Option<seq<bool>>, contexts: seq<Context>, ctx: Context)
    requires AllValid(inputs) && AreContexts(inputs, buffer, contexts) && |contexts| < |inputs|
    requires var t := |contexts|; IsContext(inputs[t], BufferAfter(buffer, MaskStepsOf(inputs[..t])), ctx)
    ensures AreContexts(inputs, buffer, contexts + [ctx])
  {
    hide IsContext, BufferAfter, MaskStepsOf;
  }

  lemma {:induction false} MaskStepsConcat(xs: seq<StepInput>, ys: seq<StepInput>)
    requires AllValid(xs) && AllValid(ys)
    ensures MaskStepsOf(xs + ys) == MaskStepsOf(xs) + MaskStepsOf(ys)
  {
    if ys == [] {
      assert xs + ys == xs;
    } else {
      var rest := ys[..|ys| - 1];
      assert (xs + ys)[..|xs + ys| - 1] == xs + rest;
      MaskStepsConcat(xs, rest);
    }
  }

  /**
   Over any run of forward steps on one buffer: every step hands out the mask of its own tokens, and the view
   that it handed out still shows this mask at the end exactly when the steps after it agree with it.
   */
  lemma RunMasks(buffer: seq<bool>, inputs: seq<StepInput>, contexts: seq<Context>, t: nat)
    requires AllValid(inputs) && |contexts| == |inputs| && AreContexts(inputs, Some(buffer), contexts)
    requires t < |inputs| && MaskStepOf(inputs[t]).Some?
    ensures var step := MaskStepOf(inputs[t]).value;
            && contexts[t].mask == Some(OwnMask(|buffer|, step))
            && (ViewOf(AfterRun(buffer, MaskStepsOf(inputs)), step.padded) == contexts[t].mask.value
                <==> LaterAgree(MaskStepsOf(inputs[t + 1..]), step.actual, 0, |contexts[t].mask.value|))
  {
    var step := MaskStepOf(inputs[t]).value;
    var before, later := MaskStepsOf(inputs[..t]), MaskStepsOf(inputs[t + 1..]);
    assert inputs == inputs[..t + 1] + inputs[t + 1..];
    MaskStepsAppend(inputs, t);
    MaskStepsConcat(inputs[..t + 1], inputs[t + 1..]);
    ViewIsOwnMask(buffer, before, step, later);
    assert (before + [step])[..|before|] == before;
    assert contexts[t].mask == Some(ViewOf(Written(AfterRun(buffer, before), step.padded, step.actual), step.padded)) by {
      assert IsContext(inputs[t], BufferAfter(Some(buffer), before), contexts[t]);
    }
  }

  // ----- the two builders

  class Runner {
    /** The reserved mask, set once per process; a dense model has none. */
    var mc2Mask: array?<bool>
    var mc2Capacity: Option<nat>

    constructor ()
      ensures mc2Mask == null && mc2Capacity == None
    {
      mc2Mask, mc2Capacity := null, None;
    }

    ghost function Buffer(): Option<seq<bool>>
      reads this, mc2Mask
    {
      if mc2Mask == null then None else Some(mc2Mask[..])
    }

    /** `set_mc2_mask`: the first call of an MoE model reserves a cleared buffer, later calls change nothing. */
    method SetMc2Mask(isMoe: bool, maxNumBatchedTokens: nat)
      modifies this`mc2Mask
      ensures old(mc2Mask) != null ==> mc2Mask == old(mc2Mask)
      ensures old(mc2Mask) == null && !isMoe ==> mc2Mask == null
      ensures old(mc2Mask) == null && isMoe ==>
                && mc2Mask != null && fresh(mc2Mask) && mc2Mask.Length == maxNumBatchedTokens
                && forall i :: 0 <= i < maxNumBatchedTokens ==> !mc2Mask[i]
    {
      if mc2Mask != null { return; }
      if isMoe { mc2Mask := new bool[maxNumBatchedTokens](_ => false); }
    }

    /** `set_mc2_tokens_capacity`: the first call fixes a multiple of the TP size that covers the largest decode batch. */
    method SetMc2TokensCapacity(hasCaptureSizes: bool, maxCaptureSize: nat, maxNumReqs: nat, decodeLen: nat, tpSize: nat)
      requires 0 < tpSize
      modifies this`mc2Capacity
      ensures old(mc2Capacity).Some? ==> mc2Capacity == old(mc2Capacity)
      ensures old(mc2Capacity) == None ==>
                var largest := if hasCaptureSizes then maxCaptureSize
                               else if maxNumReqs * decodeLen < DEFAULT_TOKEN_CAP then maxNumReqs * decodeLen
                               else DEFAULT_TOKEN_CAP;
                && mc2Capacity.Some? && mc2Capacity.value % tpSize == 0
                && largest <= mc2Capacity.value < largest + tpSize
    {
      if mc2Capacity.Some? { return; }
      var maxNumTokens := maxCaptureSize;
      if !hasCaptureSizes {
        maxNumTokens := if maxNumReqs * decodeLen < DEFAULT_TOKEN_CAP then maxNumReqs * decodeLen else DEFAULT_TOKEN_CAP;
      }
      var numTokensPerTpRank := (maxNumTokens + tpSize - 1) / tpSize;
      assert numTokensPerTpRank * tpSize == RoundUp(maxNumTokens, tpSize);
      mc2Capacity := Some(numTokensPerTpRank * tpSize);
    }

    /** The mask part that both builders share. */
    method MaskOf(padded: nat, actual: nat) returns (mask: Option<seq<bool>>)
      modifies mc2Mask
      ensures mask == match old(Buffer()) case None => None case Some(b) => Some(ViewOf(Written(b, padded, actual), padded))
      ensures Buffer() == BufferAfter(old(Buffer()), [MaskStep(padded, actual)])
    {
      mask := None;
      if mc2Mask != null {
        OneStep(mc2Mask[..], MaskStep(padded, actual));
        WriteMask(mc2Mask, padded, actual);
        mask := Some(mc2Mask[..if padded < mc2Mask.Length then padded else mc2Mask.Length]);
      }
    }

    /** The padding and mask part of `set_ascend_forward_context`, the builder of the v1 runner. */
    method BuildV1(s: StepInput) returns (ctx: Context)
      requires s.Valid()
      modifies mc2Mask
      ensures IsContext(s, old(Buffer()), ctx) && Buffer() == BufferAfter(old(Buffer()), StepsOf(s))
    {
      hide RoundUp, Written, ViewOf, BufferAfter;
      NoSteps(Buffer());
      var tp := s.tpSize;
      var isContextMoe := if s.isDraft then s.drafterIsMoe else s.isMoe;
      var flashCommV1 :=
        if isContextMoe then s.enableSp && s.numTokens.Some?
        else if s.isDraft then false
        else s.enableSp && s.numTokens.Some? && s.numTokens.value > SP_THRESHOLD;
      var flashCommV2 := s.flashComm2 && tp > 1 && s.numTokens.Some?;
      var padSize: int := 0;
      var paddedLength: Option<int> := None;
      if flashCommV1 || flashCommV2 {
        padSize := (tp - s.numTokens.value % tp) % tp;
        PadCompletes(s.numTokens.value, tp);
      }
      var numTokens := s.numTokens;
      if numTokens.None? && s.metadataTokens.Some? { numTokens := s.metadataTokens; }
      var maxTokens := numTokens;
      if s.dpWorldSize > 1 && s.acrossDp.Some? {
        var most := Largest(s.acrossDp.value);
        maxTokens := Some(most);
        if flashCommV1 || flashCommV2 {
          var length := (most + tp - 1) / tp * tp;
          RoundUpIs(most, tp);
          padSize := length - numTokens.value;
          paddedLength := Some(length);
        }
      }
      var paddedNumTokens, mask := None, None;
      if numTokens.Some? {
        var actual := if s.numActualTokens.Some? then s.numActualTokens.value else numTokens.value;
        CeilIsRoundUp(maxTokens.value, tp);
        var padded := CeilOfQuotient(maxTokens.value, tp) * tp;
        paddedNumTokens := Some(padded);
        mask := MaskOf(padded, actual);
      }
      ctx := Context(flashCommV1, flashCommV2, padSize, paddedLength, maxTokens, paddedNumTokens, mask);
    }

    /** The padding and mask part of `set_additional_forward_context`, the builder of the v2 runner. */
    method BuildV2(s: StepInput) returns (ctx: Context)
      requires s.Valid()
      modifies mc2Mask
      ensures var main := s.(isDraft := false, numActualTokens := None);
              IsContext(main, old(Buffer()), ctx) && Buffer() == BufferAfter(old(Buffer()), StepsOf(main))
    {
      hide RoundUp, Written, ViewOf, BufferAfter;
      NoSteps(Buffer());
      var tp := s.tpSize;
      var flashCommV1 :=
        if s.isMoe then s.enableSp && s.numTokens.Some?
        else s.enableSp && s.numTokens.Some? && s.numTokens.value > SP_THRESHOLD;
      var flashCommV2 := s.flashComm2 && tp > 1 && s.numTokens.Some?;
      var padSize: int := 0;
      var paddedLength: Option<int> := None;
      if flashCommV1 || flashCommV2 {
        padSize := (tp - s.numTokens.value % tp) % tp;
        PadCompletes(s.numTokens.value, tp);
      }
      var numTokens := s.numTokens;
      if numTokens.None? && s.metadataTokens.Some? { numTokens := s.metadataTokens; }
      var maxTokens := numTokens;
      if s.dpWorldSize > 1 && s.acrossDp.Some? {
        maxTokens := Some(Largest(s.acrossDp.value));
        if flashCommV1 || flashCommV2 {
          RoundUpIs(maxTokens.value, tp);
          paddedLength := Some((maxTokens.value + tp - 1) / tp * tp);
          padSize := paddedLength.value - numTokens.value;
        }
      }
      var paddedNumTokens, mask := None, None;
      if numTokens.Some? {
        CeilIsRoundUp(maxTokens.value, tp);
        var padded := CeilOfQuotient(maxTokens.value, tp) * tp;
        paddedNumTokens := Some(padded);
        mask := MaskOf(padded, numTokens.value);
      }
      ctx := Context(flashCommV1, flashCommV2, padSize, paddedLength, maxTokens, paddedNumTokens, mask);
    }

    /** A run of forward steps: every step has its context, and the buffer is that of all their masks in order. */
    method Run(inputs: seq<StepInput>) returns (contexts: seq<Context>)
      requires AllValid(inputs)
      modifies mc2Mask
      ensures |contexts| == |inputs| && AreContexts(inputs, old(Buffer()), contexts)
      ensures Buffer() == BufferAfter(old(Buffer()), MaskStepsOf(inputs))
    {
      contexts := [];
      ghost var start := Buffer();
      NoSteps(start);
      hide MaskStepsOf, StepsOf, BufferAfter, IsContext;
      assert inputs[..0] == [] && AreContexts(inputs, start, []);
      NoInputs();
      for t := 0 to |inputs|
        invariant |contexts| == t && AreContexts(inputs, start, contexts)
        invariant Buffer() == BufferAfter(start, MaskStepsOf(inputs[..t]))
      {
        hide AreContexts;
        MaskStepsAppend(inputs, t);
        BufferConcat(start, MaskStepsOf(inputs[..t]), StepsOf(inputs[t]));
        var ctx := BuildV1(inputs[t]);
        AppendContext(inputs, start, contexts, ctx);
        contexts := contexts + [ctx];
      }
      assert inputs[..|inputs|] == inputs;
    }
  }

  /** Padding by the complement of the remainder reaches the next multiple. */
  lemma PadCompletes(n: nat, tp: nat)
    requires 0 < tp
    ensures n + (tp - n % tp) % tp == RoundUp(n, tp)
  {
    var q, r := n / tp, n % tp;
    assert n == q * tp + r;
    MulStep(q, tp);
    if r == 0 {
      DivModUnique(tp - r, tp, 1, 0);
      RoundUpLeast(n, tp, n);
    } else {
      DivModUnique(tp - r, tp, 0, tp - r);
      DivModUnique(n + tp - 1, tp, q + 1, r - 1);
    }
  }

  // ----- agreement between ranks and between runners

  /**
   With padding on, every rank that knows the counts of the group pads to the same length: its own
   tokens and its padding make the least multiple of the TP size that no rank exceeds.
   */
  lemma RanksPadAlike(s: StepInput, s': StepInput, b: Option<seq<bool>>, b': Option<seq<bool>>, ctx: Context, ctx': Context)
    requires s.Valid() && s'.Valid() && IsContext(s, b, ctx) && IsContext(s', b', ctx')
    requires Exchanged(s) && Exchanged(s') && s.acrossDp == s'.acrossDp && s.tpSize == s'.tpSize
    requires PaddingOn(s) && PaddingOn(s')
    ensures ctx.paddedNumTokens == ctx.paddedLength && ctx.paddedNumTokens == ctx'.paddedNumTokens
    ensures ctx.paddedNumTokens.Some?
    ensures var length := ctx.paddedNumTokens.value;
            && s.numTokens.value + ctx.padSize == length == s'.numTokens.value + ctx'.padSize
            && length % s.tpSize == 0
            && (forall r :: 0 <= r < |s.acrossDp.value| ==> s.acrossDp.value[r] <= length)
            && (forall l: nat :: l % s.tpSize == 0 && (forall r :: 0 <= r < |s.acrossDp.value| ==> s.acrossDp.value[r] <= l)
                  ==> length <= l)
  {
    var counts := s.acrossDp.value;
    var most := Largest(counts);
    var k :| 0 <= k < |counts| && counts[k] == most;
    forall l: nat | l % s.tpSize == 0 && forall r :: 0 <= r < |counts| ==> counts[r] <= l
      ensures RoundUp(most, s.tpSize) <= l
    {
      assert counts[k] <= l;
      RoundUpLeast(most, s.tpSize, l);
    }
  }

  /** A context is determined by its input and the buffer. */
  lemma ContextIsUnique(s: StepInput, b: Option<seq<bool>>, ctx: Context, ctx': Context)
    requires s.Valid() && IsContext(s, b, ctx) && IsContext(s, b, ctx')
    ensures ctx == ctx'
  {
  }

  /** For steps without a draft model and without a separate actual count, the two runners build the same context. */
  lemma RunnersAgree(s: StepInput, b: Option<seq<bool>>, v1: Context, v2: Context)
    requires s.Valid() && !s.isDraft && s.numActualTokens == None
    requires IsContext(s, b, v1) && IsContext(s.(isDraft := false, numActualTokens := None), b, v2)
    ensures v1 == v2
  {
    ContextIsUnique(s, b, v1, v2);
  }

  // ----- the buffer is long enough

  /** `cdiv(a, b)`, written with Python's floor division by a negative number. */
  function CeilDiv(a: nat, b: nat): int
    requires 0 < b
  {
    -((0 - a) / b)
  }

  /** The batch limit after the configuration was checked. */
  function AdjustedBatchLimit(limit: nat, tpSize: nat, pcpSize: nat, enableSp: bool): int
    requires 0 < tpSize && 0 < pcpSize
  {
    MulMonotone(1, tpSize, pcpSize);
    if pcpSize > 1 && enableSp && limit % (tpSize * pcpSize) != 0 then
      CeilDiv(limit, tpSize * pcpSize) * (tpSize * pcpSize)
    else limit
  }

  lemma CeilDivIsRoundUp(a: nat, b: nat)
    requires 0 < b
    ensures CeilDiv(a, b) * b == RoundUp(a, b)
  {
    var c, r := CeilDiv(a, b), (0 - a) % b;
    assert 0 - a == (-c) * b + r;
    assert (-c) * b == -(c * b);
    DivModUnique(a + b - 1, b, c, b - 1 - r);
  }

  /** With the context-parallel adjustment the limit is the least multiple of `tp * pcp` that is not lower. */
  lemma AdjustedIsMultiple(limit: nat, tpSize: nat, pcpSize: nat)
    requires 0 < tpSize && 1 < pcpSize
    ensures var l := AdjustedBatchLimit(limit, tpSize, pcpSize, true);
            limit <= l < limit + tpSize * pcpSize && l % (tpSize * pcpSize) == 0 && l % tpSize == 0
  {
    var k := tpSize * pcpSize;
    MulMonotone(1, tpSize, pcpSize);
    var l := AdjustedBatchLimit(limit, tpSize, pcpSize, true);
    CeilDivIsRoundUp(limit, k);
    assert l == (l / k) * k == ((l / k) * pcpSize) * tpSize;
    DivModUnique(l, tpSize, (l / k) * pcpSize, 0);
  }

  /** The padded length of every batch fits a buffer of the batch limit exactly when the limit is a multiple of the TP size. */
  lemma MaskFits(limit: nat, tpSize: nat)
    requires 0 < tpSize
    ensures (forall n :: 0 <= n <= limit ==> RoundUp(n, tpSize) <= limit) <==> limit % tpSize == 0
  {
    if limit % tpSize == 0 {
      forall n | 0 <= n <= limit
        ensures RoundUp(n, tpSize) <= limit
      {
        RoundUpLeast(n, tpSize, limit);
      }
    } else {
      assert limit < RoundUp(limit, tpSize);
    }
  }

  /** A step hands out a mask of its full padded length exactly when that fits the buffer. */
  lemma MaskIsFull(s: StepInput, buffer: seq<bool>, ctx: Context)
    requires s.Valid() && IsContext(s, Some(buffer), ctx) && TokensOf(s).Some?
    ensures MaxTokens(s).Some? && ctx.paddedNumTokens == Some(RoundUp(MaxTokens(s).value, s.tpSize)) && ctx.mask.Some?
    ensures |ctx.mask.value| == ctx.paddedNumTokens.value <==> RoundUp(MaxTokens(s).value, s.tpSize) <= |buffer|
  {
    hide RoundUp, Written;
  }

  /**
   With the context-parallel adjustment and a buffer of the adjusted limit, every step whose group stays
   within the limit hands out a mask of exactly its padded length.
   */
  lemma AdjustedMasksAreFull(s: StepInput, buffer: seq<bool>, ctx: Context, limit: nat, pcpSize: nat)
    requires s.Valid() && IsContext(s, Some(buffer), ctx) && TokensOf(s).Some? && 1 < pcpSize
    requires |buffer| == AdjustedBatchLimit(limit, s.tpSize, pcpSize, true)
    requires MaxTokens(s).Some? && MaxTokens(s).value <= |buffer|
    ensures ctx.mask.Some? && ctx.paddedNumTokens.Some? && |ctx.mask.value| == ctx.paddedNumTokens.value
  {
    hide IsContext, RoundUp, AdjustedBatchLimit;
    MaskIsFull(s, buffer, ctx);
    AdjustedIsMultiple(limit, s.tpSize, pcpSize);
    RoundUpLeast(MaxTokens(s).value, s.tpSize, |buffer|);
  }

  // ----- inputs for which it is not

  /** Ten tokens on four tensor-parallel ranks, with a buffer for ten: the mask is two positions short. */
  lemma MaskIsShort(buffer: seq<bool>, ctx: Context)
    requires |buffer| == 10
    requires IsContext(StepInput(Some(10), None, None, 1, None, 4, true, false, false, true, false), Some(buffer), ctx)
    ensures ctx.paddedNumTokens == Some(12) && ctx.mask.Some? && |ctx.mask.value| < 12
  {
    var s := StepInput(Some(10), None, None, 1, None, 4, true, false, false, true, false);
    assert RoundUp(10, 4) == 12;
    MaskIsFull(s, buffer, ctx);
  }

  /** The view of a step with three tokens, after a step with one, is not its own mask. */
  lemma OlderViewChanges(buffer: seq<bool>)
    requires |buffer| == 4
    ensures ViewOf(AfterRun(buffer, [MaskStep(4, 3), MaskStep(4, 1)]), 4) != OwnMask(4, MaskStep(4, 3))
  {
    var later := [MaskStep(4, 1)];
    assert [] + [MaskStep(4, 3)] + later == [MaskStep(4, 3), MaskStep(4, 1)];
    assert !SameBetween(1, 3, 0, 4);
    assert later[0] == MaskStep(4, 1) && !LaterAgree(later, 3, 0, 4);
    ViewIsOwnMask(buffer, [], MaskStep(4, 3), later);
  }
}
