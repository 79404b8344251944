/**
 How a rank picks the collective of an MoE layer, and when the ranks of a DP group may
 pick it without first exchanging their token counts.
 */
module MoeComm {
  import opened Arith
  import opened Lists

  datatype CommType = AllGather | Mc2 | AllToAll | FusedMc2

  datatype Soc = A2 | A3 | P310 | A5 | OtherSoc

  /** The settings that the choice reads; they are the same on every rank of the group. */
  datatype Config = Config(
    isMoe: bool, drafterIsMoe: bool,
    expertParallel: bool, epGroupSize: nat,
    soc: Soc, numExperts: nat, worldSizeAcrossDp: nat, pipelineParallelSize: nat,
    fusedMc2: int, gmmCombineDecode: bool, w8a8Dynamic: bool,
    mc2Capacity: nat)
  {
    /** There is a rank per pipeline stage at least, so the divisions are defined. */
    predicate Valid() {
      0 < pipelineParallelSize <= worldSizeAcrossDp
    }

    function EpWorldSize(): (r: nat)
      requires Valid()
      ensures 0 < r
    {
      var q := worldSizeAcrossDp / pipelineParallelSize;
      assert q > 0 by {
        assert worldSizeAcrossDp == q * pipelineParallelSize + worldSizeAcrossDp % pipelineParallelSize;
        if q <= 0 { MulMonotone(q, 0, pipelineParallelSize); }
      }
      q
    }
  }

  /** `None` is the choice of a dense model; an unsupported device is an error. */
  datatype Choice = Chosen(comm: Option<CommType>) | Unsupported

  /** `select_moe_comm_method`. */
  function Select(numTokens: nat, c: Config, isDraft: bool): Choice
    requires c.Valid()
  {
    if !c.isMoe then Chosen(None)
    else if !c.expertParallel || c.epGroupSize == 1 then Chosen(Some(AllGather))
    else
      match c.soc
      case A2 =>
        if c.numExperts / c.EpWorldSize() <= 24 && c.EpWorldSize() >= 16 && numTokens <= c.mc2Capacity
        then Chosen(Some(Mc2)) else Chosen(Some(AllGather))
      case A3 =>
        var dispatchFfnCombine := c.epGroupSize <= 32 && !isDraft;
        if numTokens <= c.mc2Capacity then
          var fusedDecode :=
            if c.fusedMc2 == 1 then dispatchFfnCombine
            else if c.fusedMc2 == 2 then c.gmmCombineDecode && c.w8a8Dynamic
            else c.fusedMc2 != 0;
          Chosen(Some(if fusedDecode then FusedMc2 else Mc2))
        else
          var fusedPrefill :=
            if c.fusedMc2 == 1 then dispatchFfnCombine
            else if c.fusedMc2 == 2 then false
            else c.fusedMc2 != 0;
          Chosen(Some(if fusedPrefill then FusedMc2 else AllToAll))
      case P310 => Chosen(Some(AllGather))
      case A5 =>
        if numTokens <= c.mc2Capacity && c.worldSizeAcrossDp > 1 then Chosen(Some(Mc2)) else Chosen(Some(AllToAll))
      case OtherSoc => Unsupported
  }

  /** The conditions of MC2 on A2: at most 24 experts on each of at least 16 ranks of a stage. */
  lemma A2RanksIs(c: Config)
    requires c.Valid()
    ensures c.numExperts / c.EpWorldSize() <= 24 <==> c.numExperts < 25 * (c.worldSizeAcrossDp / c.pipelineParallelSize)
    ensures c.EpWorldSize() >= 16 <==> 16 * c.pipelineParallelSize <= c.worldSizeAcrossDp
  {
    DivAtLeast(c.worldSizeAcrossDp, c.pipelineParallelSize, 16);
    DivAtLeast(c.numExperts, c.EpWorldSize(), 25);
  }

  lemma DivAtLeast(n: nat, d: nat, k: nat)
    requires 0 < d
    ensures k <= n / d <==> k * d <= n
  {
    var q := n / d;
    assert n == d * q + n % d;
    assert d * q == q * d;
    if k <= q { MulMonotone(k, q, d); }
    if q < k {
      MulMonotone(q + 1, k, d);
      MulStep(q, d);
    }
  }

  /** For every result exactly the settings and token counts that give it. */
  lemma SelectIs(n: nat, c: Config, isDraft: bool)
    requires c.Valid()
    ensures Select(n, c, isDraft) == Chosen(None) <==> !c.isMoe
    ensures Select(n, c, isDraft) == Chosen(Some(AllGather)) <==>
              && c.isMoe
              && (|| !c.expertParallel || c.epGroupSize == 1 || c.soc == P310
                  || (c.soc == A2 && (|| c.numExperts >= 25 * (c.worldSizeAcrossDp / c.pipelineParallelSize)
                                      || c.worldSizeAcrossDp < 16 * c.pipelineParallelSize || c.mc2Capacity < n)))
    ensures Select(n, c, isDraft) == Chosen(Some(AllToAll)) <==>
              && c.isMoe && c.expertParallel && c.epGroupSize != 1
              && (|| (c.soc == A3 && c.mc2Capacity < n
                      && (c.fusedMc2 in {0, 2} || (c.fusedMc2 == 1 && (32 < c.epGroupSize || isDraft))))
                  || (c.soc == A5 && (c.mc2Capacity < n || c.worldSizeAcrossDp == 1)))
    ensures Select(n, c, isDraft) == Chosen(Some(Mc2)) <==>
              && c.isMoe && c.expertParallel && c.epGroupSize != 1 && n <= c.mc2Capacity
              && (|| (c.soc == A2 && c.numExperts < 25 * (c.worldSizeAcrossDp / c.pipelineParallelSize)
                      && 16 * c.pipelineParallelSize <= c.worldSizeAcrossDp)
                  || (c.soc == A3 && (|| c.fusedMc2 == 0 || (c.fusedMc2 == 1 && (32 < c.epGroupSize || isDraft))
                                      || (c.fusedMc2 == 2 && !(c.gmmCombineDecode && c.w8a8Dynamic))))
                  || (c.soc == A5 && 1 < c.worldSizeAcrossDp))
    ensures Select(n, c, isDraft) == Chosen(Some(FusedMc2)) <==>
              && c.isMoe && c.expertParallel && c.epGroupSize != 1 && c.soc == A3
              && (|| (c.fusedMc2 == 1 && c.epGroupSize <= 32 && !isDraft)
                  || (c.fusedMc2 == 2 && n <= c.mc2Capacity && c.gmmCombineDecode && c.w8a8Dynamic)
                  || c.fusedMc2 !in {0, 1, 2})
    ensures Select(n, c, isDraft) == Unsupported <==>
              c.isMoe && c.expertParallel && c.epGroupSize != 1 && c.soc == OtherSoc
  {
    A2RanksIs(c);
  }

  /** `needs_mc2`: it always asks for the main model. */
  predicate NeedsMc2(n: nat, c: Config)
    requires c.Valid()
  {
    Select(n, c, false) in {Chosen(Some(Mc2)), Chosen(Some(FusedMc2))}
  }

  /** What the decision to skip the all-reduce reads besides the configuration. */
  datatype Schedule = Schedule(
    hierarchical: bool, kvConsumer: bool, recompute: bool,
    hasCaptureSizes: bool, maxCaptureSize: nat,
    maxBatchedTokens: nat, maxNumSeqs: nat, decodeMaxNumSeqs: nat, speculativeTokens: Option<nat>)

  function Max(a: nat, b: nat): nat { if a < b then b else a }
  function Min(a: nat, b: nat): nat { if a < b then a else b }

  function UniformDecodeLen(s: Schedule): nat {
    match s.speculativeTokens case None => 1 case Some(k) => 1 + k
  }

  /** The largest token count of a decode step that the check considers. */
  function PotentialMaxTokens(s: Schedule): nat {
    if s.hasCaptureSizes then
      Max(s.maxCaptureSize, Min(s.maxBatchedTokens, s.maxNumSeqs * UniformDecodeLen(s)))
    else
      Min(Max(s.maxNumSeqs, s.decodeMaxNumSeqs) * UniformDecodeLen(s), 512)
  }

  /** `should_skip_allreduce_across_dp_group`. */
  predicate SkipsAllReduce(c: Config, s: Schedule, isDraft: bool)
    requires c.Valid()
  {
    if s.hierarchical then false
    else if !(if isDraft then c.drafterIsMoe else c.isMoe) then true
    else if !s.kvConsumer then false
    else
      NeedsMc2(PotentialMaxTokens(s), c) && (NeedsMc2(s.maxBatchedTokens, c) || s.recompute)
  }

  /** The largest count that the check has covered. */
  function CheckedBound(c: Config, s: Schedule): nat
    requires c.Valid()
  {
    if NeedsMc2(s.maxBatchedTokens, c) then Max(PotentialMaxTokens(s), s.maxBatchedTokens) else PotentialMaxTokens(s)
  }

  /** Needing MC2 is downward closed, and a count that needs it decides the choice of every smaller one. */
  lemma Mc2DownwardClosed(c: Config, m: nat, n: nat)
    requires c.Valid() && m <= n && NeedsMc2(n, c)
    ensures NeedsMc2(m, c) && Select(m, c, false) == Select(n, c, false)
  {
  }

  lemma NeedsMc2OfMaxMin(c: Config, m: nat, n: nat)
    requires c.Valid()
    ensures NeedsMc2(Max(m, n), c) <==> NeedsMc2(m, c) && NeedsMc2(n, c)
    ensures NeedsMc2(Min(m, n), c) <==> NeedsMc2(m, c) || NeedsMc2(n, c)
  {
    hide NeedsMc2, Select;
    var low, high := Min(m, n), Max(m, n);
    if NeedsMc2(high, c) { Mc2DownwardClosed(c, low, high); }
  }

  /**
   When the exchange is skipped, written without the largest count that is looked at: the largest captured
   size, if there is one, and a decode step of all requests or else the cap on it must need MC2.
   */
  lemma SkipsIff(c: Config, s: Schedule, isDraft: bool)
    requires c.Valid()
    ensures var perRequest := match s.speculativeTokens case None => 1 case Some(k) => 1 + k;
            SkipsAllReduce(c, s, isDraft) <==>
              && !s.hierarchical
              && (|| (isDraft && !c.drafterIsMoe) || (!isDraft && !c.isMoe)
                  || (&& s.kvConsumer && (NeedsMc2(s.maxBatchedTokens, c) || s.recompute)
                      && if s.hasCaptureSizes then
                           && NeedsMc2(s.maxCaptureSize, c)
                           && (NeedsMc2(s.maxBatchedTokens, c) || NeedsMc2(s.maxNumSeqs * perRequest, c))
                         else
                           || NeedsMc2(512, c)
                           || (NeedsMc2(s.maxNumSeqs * perRequest, c) && NeedsMc2(s.decodeMaxNumSeqs * perRequest, c))))
  {
    hide NeedsMc2, Select;
    var perRequest := UniformDecodeLen(s);
    NeedsMc2OfMaxMin(c, s.maxCaptureSize, Min(s.maxBatchedTokens, s.maxNumSeqs * perRequest));
    NeedsMc2OfMaxMin(c, s.maxBatchedTokens, s.maxNumSeqs * perRequest);
    NeedsMc2OfMaxMin(c, Max(s.maxNumSeqs, s.decodeMaxNumSeqs) * perRequest, 512);
    NeedsMc2OfMaxMin(c, s.maxNumSeqs * perRequest, s.decodeMaxNumSeqs * perRequest);
    MulMonotone(Min(s.maxNumSeqs, s.decodeMaxNumSeqs), Max(s.maxNumSeqs, s.decodeMaxNumSeqs), perRequest);
  }

  /**
   Ranks that skip the exchange pick the same collective for the main model, whatever
   their own token counts are, as long as these stay within the checked bound.  If it is plain
   MC2, no rank exceeds the MC2 capacity.
   */
  lemma SkippingRanksAgree(c: Config, s: Schedule, m: nat, n: nat)
    requires c.Valid() && SkipsAllReduce(c, s, false)
    requires m <= CheckedBound(c, s) && n <= CheckedBound(c, s)
    ensures Select(m, c, false) == Select(n, c, false)
    ensures c.isMoe ==> NeedsMc2(m, c)
    ensures Select(m, c, false) == Chosen(Some(Mc2)) ==> n <= c.mc2Capacity
  {
    if c.isMoe {
      Mc2DownwardClosed(c, m, CheckedBound(c, s));
      Mc2DownwardClosed(c, n, CheckedBound(c, s));
    }
  }

  /** The settings under which the choice changes at the MC2 capacity. */
  predicate SwitchesAtCapacity(c: Config, isDraft: bool)
    requires c.Valid()
  {
    c.isMoe && c.expertParallel && c.epGroupSize != 1 &&
    match c.soc
    case A2 => c.numExperts / c.EpWorldSize() <= 24 && c.EpWorldSize() >= 16
    case A3 => c.fusedMc2 == 0 || c.fusedMc2 == 2 || (c.fusedMc2 == 1 && (c.epGroupSize > 32 || isDraft))
    case A5 => c.worldSizeAcrossDp > 1
    case _ => false
  }

  /** All token counts up to a bound get the same choice exactly when the bound is within the capacity or nothing changes there. */
  lemma ChoicesAgreeIff(c: Config, isDraft: bool, bound: nat)
    requires c.Valid()
    ensures (forall m, n :: 0 <= m <= bound && 0 <= n <= bound ==> Select(m, c, isDraft) == Select(n, c, isDraft))
       <==> bound <= c.mc2Capacity || !SwitchesAtCapacity(c, isDraft)
  {
    if bound > c.mc2Capacity && SwitchesAtCapacity(c, isDraft) {
      assert Select(c.mc2Capacity, c, isDraft) != Select(c.mc2Capacity + 1, c, isDraft);
    }
  }

  /**
   The check caps the decode count it looks at.  Over all counts that decoding can reach, ranks that skip
   the exchange agree exactly when these are within the capacity or the choice does not change there.
   */
  lemma SkippingDecodeRanksAgree(c: Config, s: Schedule)
    requires c.Valid() && SkipsAllReduce(c, s, false)
    ensures var most := s.maxNumSeqs * UniformDecodeLen(s);
            (forall m, n :: 0 <= m <= most && 0 <= n <= most ==> Select(m, c, false) == Select(n, c, false))
            <==> most <= c.mc2Capacity || !SwitchesAtCapacity(c, false)
    ensures SwitchesAtCapacity(c, false) ==> CheckedBound(c, s) <= c.mc2Capacity
  {
    ChoicesAgreeIff(c, false, s.maxNumSeqs * UniformDecodeLen(s));
    if SwitchesAtCapacity(c, false) { assert NeedsMc2(CheckedBound(c, s), c); }
  }

  /** Two main-model ranks that skip the exchange and decode beyond the count that was checked. */
  lemma DecodeRanksCanDisagree()
    ensures exists c: Config, s: Schedule ::
              && c.Valid() && c.isMoe && SkipsAllReduce(c, s, false) && 513 <= s.maxNumSeqs * UniformDecodeLen(s)
              && Select(512, c, false) != Select(513, c, false)
  {
    var c := Config(true, false, true, 16, A3, 256, 16, 1, 0, false, false, 512);
    var s := Schedule(false, true, true, false, 0, 8192, 1024, 0, None);
    assert PotentialMaxTokens(s) == 512;
    assert c.Valid() && SkipsAllReduce(c, s, false) && Select(512, c, false) != Select(513, c, false);
  }

  /** The settings under which the draft model's choice differs from the one the check looked at. */
  predicate DraftUnchecked(c: Config) {
    c.soc == A3 && c.expertParallel && c.epGroupSize != 1 && c.epGroupSize <= 32 && c.fusedMc2 == 1
  }

  /**
   For an MoE draft model the check looks at the main model's choice.  Its ranks agree within the checked
   bound exactly when the bound is within the MC2 capacity or the fused kernel of
   the main model, which the draft model may not use, is not in play.
   */
  lemma SkippingDraftRanksAgree(c: Config, s: Schedule)
    requires c.Valid() && c.isMoe && c.drafterIsMoe && SkipsAllReduce(c, s, true)
    ensures (forall m, n :: 0 <= m <= CheckedBound(c, s) && 0 <= n <= CheckedBound(c, s) ==>
               Select(m, c, true) == Select(n, c, true))
            <==> !DraftUnchecked(c) || CheckedBound(c, s) <= c.mc2Capacity
  {
    var bound := CheckedBound(c, s);
    if !DraftUnchecked(c) || bound <= c.mc2Capacity {
      forall m, n | 0 <= m <= bound && 0 <= n <= bound
        ensures Select(m, c, true) == Select(n, c, true)
      {
        Mc2DownwardClosed(c, m, bound);
        Mc2DownwardClosed(c, n, bound);
      }
    } else {
      assert Select(c.mc2Capacity, c, true) == Chosen(Some(Mc2));
      assert Select(c.mc2Capacity + 1, c, true) == Chosen(Some(AllToAll));
    }
  }

  /** Two draft ranks that skip the exchange and pick different collectives. */
  lemma DraftRanksCanDisagree()
    ensures exists c: Config, s: Schedule, m: nat, n: nat ::
              && c.Valid() && c.isMoe && c.drafterIsMoe && SkipsAllReduce(c, s, true)
              && m <= CheckedBound(c, s) && n <= CheckedBound(c, s) && Select(m, c, true) != Select(n, c, true)
  {
    var c := Config(true, true, true, 16, A3, 256, 16, 1, 1, false, false, 512);
    var s := Schedule(false, true, false, false, 0, 8192, 256, 0, Some(1));
    assert PotentialMaxTokens(s) == 512;
    assert c.Valid() && SkipsAllReduce(c, s, true) && CheckedBound(c, s) == 8192;
    assert Select(512, c, true) != Select(513, c, true);
  }
}
