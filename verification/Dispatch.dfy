/**
 The host-side plan of the MoE prefill dispatch.

 Every rank numbers its routed entries per expert, the ranks exchange their
 per-expert counts, and every rank turns the counts it received into running
 totals in (local expert, source rank) order.  `DispatchPlacement` says where the
 device kernel then puts the entries.
 */
module Dispatch {
  import opened Arith

  const SEND_PER_GROUP := 3

  // ----- counting occurrences

  /** How often `e` occurs among the first `p` elements of `s`. */
  function Occurrences(s: seq<int>, e: int, p: nat): nat
    requires p <= |s|
  {
    if p == 0 then 0
    else Occurrences(s, e, p - 1) + (if s[p - 1] == e then 1 else 0)
  }

  lemma {:induction false} OccurrencesMonotone(s: seq<int>, e: int, p: nat, q: nat)
    requires p <= q <= |s|
    ensures Occurrences(s, e, p) <= Occurrences(s, e, q)
    ensures p < q && s[p] == e ==> Occurrences(s, e, p) < Occurrences(s, e, q)
    decreases q
  {
    if p < q {
      OccurrencesMonotone(s, e, p, q - 1);
    }
  }

  lemma {:induction false} OccurrencesBound(s: seq<int>, e: int, p: nat)
    requires p <= |s|
    ensures Occurrences(s, e, p) <= p
  {
    if p > 0 { OccurrencesBound(s, e, p - 1); }
  }

  /** The position of occurrence number `k` of `e`, among the first `p` elements. */
  ghost function PositionOf(s: seq<int>, e: int, p: nat, k: nat): (r: nat)
    requires p <= |s| && k < Occurrences(s, e, p)
    ensures r < p && s[r] == e && Occurrences(s, e, r) == k
  {
    if s[p - 1] == e && k == Occurrences(s, e, p - 1) then p - 1 else PositionOf(s, e, p - 1, k)
  }

  // ----- prefix sums

  /** The sum of the first `n` elements of `s`. */
  function Prefix(s: seq<int>, n: nat): int
    requires n <= |s|
  {
    if n == 0 then 0 else Prefix(s, n - 1) + s[n - 1]
  }

  predicate NonNegative(s: seq<int>) {
    forall i :: 0 <= i < |s| ==> s[i] >= 0
  }

  lemma {:induction false} PrefixMonotone(s: seq<int>, m: nat, n: nat)
    requires NonNegative(s) && m <= n <= |s|
    ensures 0 <= Prefix(s, m) <= Prefix(s, n)
    decreases n
  {
    if m < n {
      PrefixMonotone(s, m, n - 1);
    } else if n > 0 {
      PrefixMonotone(s, n - 1, n - 1);
    }
  }

  /** The block that holds offset `x` when blocks of sizes `s` are laid end to end. */
  ghost function BlockOf(s: seq<int>, n: nat, x: int): (i: nat)
    requires n <= |s| && 0 <= x < Prefix(s, n)
    ensures i < n && Prefix(s, i) <= x < Prefix(s, i + 1)
  {
    if Prefix(s, n - 1) <= x then n - 1 else BlockOf(s, n - 1, x)
  }

  /** Two blocks that share an offset are the same block. */
  lemma SameBlock(s: seq<int>, i: nat, j: nat, x: int)
    requires NonNegative(s) && i < |s| && j < |s|
    requires Prefix(s, i) <= x < Prefix(s, i + 1)
    requires Prefix(s, j) <= x < Prefix(s, j + 1)
    ensures i == j
  {
    if i < j { PrefixMonotone(s, i + 1, j); }
    if j < i { PrefixMonotone(s, j + 1, i); }
  }

  // ----- the two host loops

  /**
   Numbers the entries of one rank: `sendTokenIdx` at an entry is how many earlier
   entries go to the same expert.  Entries with a negative expert are not written.
   The flat index of the source is a 32-bit integer, and an expert id indexes the
   accumulator without a check; both are the caller's duty.
   */
  method NumberEntries(topkIdx: array<int>, numTokens: nat, numTopk: nat, numExperts: nat)
    returns (sendTokenIdx: array<int>, localExpertAcc: array<int>)
    requires topkIdx.Length == numTokens * numTopk <= INT32_MAX
    requires forall p :: 0 <= p < topkIdx.Length ==> topkIdx[p] < numExperts
    ensures sendTokenIdx.Length == topkIdx.Length && localExpertAcc.Length == numExperts
    ensures forall p :: 0 <= p < topkIdx.Length && topkIdx[p] >= 0 ==>
              sendTokenIdx[p] == Occurrences(topkIdx[..], topkIdx[p], p)
    ensures forall e :: 0 <= e < numExperts ==>
              localExpertAcc[e] == Occurrences(topkIdx[..], e, topkIdx.Length)
  {
    localExpertAcc := new int[numExperts](_ => 0);
    sendTokenIdx := new int[numTokens * numTopk];
    ghost var s := topkIdx[..];
    var i := 0;
    while i < numTokens
      invariant 0 <= i <= numTokens && 0 <= i * numTopk <= |s|
      invariant forall e :: 0 <= e < numExperts ==> localExpertAcc[e] == Occurrences(s, e, i * numTopk)
      invariant forall p :: 0 <= p < i * numTopk && s[p] >= 0 ==> sendTokenIdx[p] == Occurrences(s, s[p], p)
      invariant topkIdx[..] == s
    {
      ghost var base := i * numTopk;
      assert base + numTopk <= |s| by {
        MulStep(i, numTopk);
        MulMonotone(i + 1, numTokens, numTopk);
      }
      var j := 0;
      while j < numTopk
        invariant 0 <= j <= numTopk
        invariant forall e :: 0 <= e < numExperts ==> localExpertAcc[e] == Occurrences(s, e, base + j)
        invariant forall p :: 0 <= p < base + j && s[p] >= 0 ==> sendTokenIdx[p] == Occurrences(s, s[p], p)
        invariant topkIdx[..] == s
      {
        var p := i * numTopk + j;
        var expertIdx := topkIdx[p];
        assert expertIdx == s[p];
        if expertIdx >= 0 {
          var cnt := localExpertAcc[expertIdx];
          sendTokenIdx[p] := cnt;
          localExpertAcc[expertIdx] := localExpertAcc[expertIdx] + 1;
        }
        j := j + 1;
      }
      MulStep(i, numTopk);
      i := i + 1;
    }
  }

  /** Where the triple sent by a source rank for a local expert starts in the received data. */
  function PairIndex(numLocalExperts: nat, srcRank: nat, localE: nat): nat {
    SEND_PER_GROUP * (srcRank * numLocalExperts + localE)
  }

  lemma PairIndexBound(numRanks: nat, numLocalExperts: nat, srcRank: nat, localE: nat)
    requires srcRank < numRanks && localE < numLocalExperts
    ensures 0 <= srcRank * numLocalExperts + localE < numRanks * numLocalExperts
    ensures PairIndex(numLocalExperts, srcRank, localE) + SEND_PER_GROUP <= SEND_PER_GROUP * (numRanks * numLocalExperts)
  {
    RowMajorBound(srcRank, localE, numRanks, numLocalExperts);
  }

  /** One field of the received triples, read in (local expert, source rank) order. */
  function Transposed(recvData: seq<int>, numRanks: nat, numLocalExperts: nat, field: nat): (r: seq<int>)
    requires |recvData| == SEND_PER_GROUP * (numRanks * numLocalExperts)
    requires field < SEND_PER_GROUP && 0 < numRanks
    ensures |r| == numLocalExperts * numRanks
  {
    seq(numLocalExperts * numRanks, i requires 0 <= i < numLocalExperts * numRanks =>
      RowMajorCell(i, numLocalExperts, numRanks);
      PairIndexBound(numRanks, numLocalExperts, i % numRanks, i / numRanks);
      recvData[PairIndex(numLocalExperts, i % numRanks, i / numRanks) + field])
  }

  lemma TransposedAt(recvData: seq<int>, numRanks: nat, numLocalExperts: nat, localE: nat, srcRank: nat, field: nat)
    requires |recvData| == SEND_PER_GROUP * (numRanks * numLocalExperts)
    requires field < SEND_PER_GROUP && localE < numLocalExperts && srcRank < numRanks
    ensures 0 <= localE * numRanks + srcRank < numLocalExperts * numRanks
    ensures 0 <= 3 * (srcRank * numLocalExperts + localE) + field < |recvData|
    ensures Transposed(recvData, numRanks, numLocalExperts, field)[localE * numRanks + srcRank]
         == recvData[3 * (srcRank * numLocalExperts + localE) + field]
  {
    RowMajorBound(localE, srcRank, numLocalExperts, numRanks);
    PairIndexBound(numRanks, numLocalExperts, srcRank, localE);
    RowMajor(localE, srcRank, numRanks);
  }

  /** `m` is the largest of `floor` and the first `n` elements of `s`. */
  ghost predicate IsMaximum(m: int, floor: int, s: seq<int>, n: nat)
    requires n <= |s|
  {
    && floor <= m
    && (forall i :: 0 <= i < n ==> s[i] <= m)
    && (m == floor || exists i :: 0 <= i < n && s[i] == m)
  }

  /** The three fields of the received triples in the order in which the host loop visits them. */
  datatype Received = Received(counts: seq<int>, offsets: seq<int>, sizes: seq<int>)

  ghost function ReceivedOf(recvData: seq<int>, numRanks: nat, numLocalExperts: nat): (r: Received)
    requires |recvData| == SEND_PER_GROUP * (numRanks * numLocalExperts) && 0 < numRanks
    ensures |r.counts| == |r.offsets| == |r.sizes| == numLocalExperts * numRanks
  {
    Received(Transposed(recvData, numRanks, numLocalExperts, 0),
             Transposed(recvData, numRanks, numLocalExperts, 1),
             Transposed(recvData, numRanks, numLocalExperts, 2))
  }

  /** The first visit of local expert `e`. */
  ghost function FirstVisit(e: nat, numRanks: nat): nat {
    if e == 0 then 0 else FirstVisit(e - 1, numRanks) + numRanks
  }

  lemma {:induction false} FirstVisitIsProduct(e: nat, numRanks: nat)
    ensures FirstVisit(e, numRanks) == e * numRanks
  {
    if e > 0 {
      FirstVisitIsProduct(e - 1, numRanks);
      MulStep(e - 1, numRanks);
    }
  }

  /** Visit `base + src` reads the triple that `src` sends for `localE`, where it lies in the received data. */
  ghost predicate IsTriple(r: Received, recvData: seq<int>, numLocalExperts: nat, localE: nat, base: nat, src: nat) {
    var i, p := base + src, 3 * (src * numLocalExperts + localE);
    && i < |r.counts| == |r.offsets| == |r.sizes| && 0 <= p < p + 2 < |recvData|
    && recvData[p] == r.counts[i] && recvData[p + 1] == r.offsets[i] && recvData[p + 2] == r.sizes[i]
  }

  /** The visits from `base` on are those of local expert `localE`. */
  ghost predicate IsRow(r: Received, recvData: seq<int>, numRanks: nat, numLocalExperts: nat, localE: nat, base: nat) {
    && base + numRanks <= |r.counts| == |r.offsets| == |r.sizes|
    && forall src :: 0 <= src < numRanks ==> IsTriple(r, recvData, numLocalExperts, localE, base, src)
  }

  lemma ReceivedTriple(recvData: seq<int>, numRanks: nat, numLocalExperts: nat, localE: nat, src: nat)
    requires |recvData| == SEND_PER_GROUP * (numRanks * numLocalExperts) && src < numRanks && localE < numLocalExperts
    ensures 0 <= localE * numRanks
    ensures IsTriple(ReceivedOf(recvData, numRanks, numLocalExperts), recvData, numLocalExperts, localE, localE * numRanks, src)
  {
    hide Transposed;
    MulMonotone(0, localE, numRanks);
    TransposedAt(recvData, numRanks, numLocalExperts, localE, src, 0);
    TransposedAt(recvData, numRanks, numLocalExperts, localE, src, 1);
    TransposedAt(recvData, numRanks, numLocalExperts, localE, src, 2);
  }

  lemma ReceivedRow(recvData: seq<int>, numRanks: nat, numLocalExperts: nat, localE: nat)
    requires |recvData| == SEND_PER_GROUP * (numRanks * numLocalExperts) && 0 < numRanks && localE < numLocalExperts
    ensures FirstVisit(localE, numRanks) == localE * numRanks
    ensures IsRow(ReceivedOf(recvData, numRanks, numLocalExperts), recvData, numRanks, numLocalExperts, localE,
                  FirstVisit(localE, numRanks))
  {
    hide Transposed, IsTriple, FirstVisit;
    FirstVisitIsProduct(localE, numRanks);
    MulMonotone(0, localE, numRanks);
    MulStep(localE, numRanks);
    MulMonotone(localE + 1, numLocalExperts, numRanks);
    var r, base := ReceivedOf(recvData, numRanks, numLocalExperts), FirstVisit(localE, numRanks);
    forall src | 0 <= src < numRanks
      ensures IsTriple(r, recvData, numLocalExperts, localE, base, src)
    {
      ReceivedTriple(recvData, numRanks, numLocalExperts, localE, src);
    }
  }

  /** The totals after the first `n` visits. */
  ghost predicate TotalsUpTo(r: Received, n: int, recvCount: seq<int>, recvOffset: seq<int>, total: int, max: int) {
    && 0 <= n <= |r.counts| == |r.offsets| == |r.sizes| == |recvCount| == |recvOffset|
    && (forall i :: 0 <= i < n ==> recvCount[i] == Int32(Prefix(r.counts, i + 1)))
    && (forall i :: 0 <= i < n ==> recvOffset[i] == r.offsets[i])
    && total == Prefix(r.counts, n)
    && IsMaximum(max, 0, r.sizes, n)
  }

  /** The inner loop: adds the counts that every source rank sends to one local expert. */
  method ExpertTotals(recvData: array<int>, numRanks: nat, numLocalExperts: nat, localE: nat, ghost base: nat,
                      recvCount: array<int>, recvOffset: array<int>, total: int, max: int, ghost r: Received)
    returns (newTotal: int, newMax: int, localExpertRecvTokens: int)
    requires base == localE * numRanks
    requires recvCount != recvOffset && recvData != recvCount && recvData != recvOffset
    requires TotalsUpTo(r, base, recvCount[..], recvOffset[..], total, max)
    requires IsRow(r, recvData[..], numRanks, numLocalExperts, localE, base)
    modifies recvCount, recvOffset
    ensures TotalsUpTo(r, base + numRanks, recvCount[..], recvOffset[..], newTotal, newMax)
    ensures localExpertRecvTokens == newTotal - total
  {
    newTotal, newMax, localExpertRecvTokens := total, max, 0;
    var srcRank := 0;
    while srcRank < numRanks
      invariant 0 <= srcRank <= numRanks
      invariant TotalsUpTo(r, base + srcRank, recvCount[..], recvOffset[..], newTotal, newMax)
      invariant localExpertRecvTokens == newTotal - total
    {
      var index := localE * numRanks + srcRank;
      assert IsTriple(r, recvData[..], numLocalExperts, localE, base, srcRank);
      var pairIdx := PairIndex(numLocalExperts, srcRank, localE);
      var recvCnt := recvData[pairIdx];
      var recvOff := recvData[pairIdx + 1];
      var sendNumTokens := recvData[pairIdx + 2];
      newTotal := newTotal + recvCnt;
      recvCount[index] := Int32(newTotal);
      recvOffset[index] := recvOff;
      newMax := if newMax < sendNumTokens then sendNumTokens else newMax;
      localExpertRecvTokens := localExpertRecvTokens + recvCnt;
      srcRank := srcRank + 1;
    }
  }

  /** `total` is the sum of the `numRanks` counts that belong to local expert `e`. */
  ghost predicate IsExpertTotal(counts: seq<int>, numRanks: nat, e: nat, total: int) {
    && FirstVisit(e, numRanks) + numRanks <= |counts|
    && total == Prefix(counts, FirstVisit(e, numRanks) + numRanks) - Prefix(counts, FirstVisit(e, numRanks))
  }

  ghost predicate AreExpertTotals(counts: seq<int>, numRanks: nat, totals: seq<int>) {
    forall e :: 0 <= e < |totals| ==> IsExpertTotal(counts, numRanks, e, totals[e])
  }

  lemma AppendExpertTotal(counts: seq<int>, numRanks: nat, totals: seq<int>, total: int)
    requires AreExpertTotals(counts, numRanks, totals) && IsExpertTotal(counts, numRanks, |totals|, total)
    ensures AreExpertTotals(counts, numRanks, totals + [total])
    ensures Prefix(totals + [total], |totals| + 1) == Prefix(totals, |totals|) + total
  {
    hide IsExpertTotal, FirstVisit;
    PrefixAppend(totals, total, |totals|);
  }

  /** The sum of the counts that the first `n` source ranks send for `localE`. */
  ghost function SentBy(recvData: seq<int>, numLocalExperts: nat, localE: nat, n: nat): int {
    if n == 0 then 0
    else
      var p := 3 * ((n - 1) * numLocalExperts + localE);
      SentBy(recvData, numLocalExperts, localE, n - 1) + (if 0 <= p < |recvData| then recvData[p] else 0)
  }

  /** The sum of all counts for the first `e` local experts. */
  ghost function SentTo(recvData: seq<int>, numRanks: nat, numLocalExperts: nat, e: nat): int {
    if e == 0 then 0
    else SentTo(recvData, numRanks, numLocalExperts, e - 1) + SentBy(recvData, numLocalExperts, e - 1, numRanks)
  }

  lemma {:induction false} SentByIs(r: Received, recvData: seq<int>, numRanks: nat, numLocalExperts: nat, localE: nat,
                                    base: nat, n: nat)
    requires n <= numRanks && IsRow(r, recvData, numRanks, numLocalExperts, localE, base)
    ensures base + n <= |r.counts|
    ensures SentBy(recvData, numLocalExperts, localE, n) == Prefix(r.counts, base + n) - Prefix(r.counts, base)
  {
    if n > 0 {
      SentByIs(r, recvData, numRanks, numLocalExperts, localE, base, n - 1);
      assert IsTriple(r, recvData, numLocalExperts, localE, base, n - 1);
    }
  }

  /** Every row of the visits is that of its local expert. */
  ghost predicate AreRows(r: Received, recvData: seq<int>, numRanks: nat, numLocalExperts: nat) {
    && |r.counts| == |r.offsets| == |r.sizes| == numLocalExperts * numRanks
    && forall e :: 0 <= e < numLocalExperts ==>
         IsRow(r, recvData, numRanks, numLocalExperts, e, FirstVisit(e, numRanks))
  }

  lemma {:induction false} SentToIs(r: Received, recvData: seq<int>, numRanks: nat, numLocalExperts: nat, e: nat)
    requires e <= numLocalExperts && AreRows(r, recvData, numRanks, numLocalExperts)
    ensures FirstVisit(e, numRanks) <= |r.counts|
    ensures SentTo(recvData, numRanks, numLocalExperts, e) == Prefix(r.counts, FirstVisit(e, numRanks))
  {
    hide IsRow, SentBy;
    if e > 0 {
      SentToIs(r, recvData, numRanks, numLocalExperts, e - 1);
      SentByIs(r, recvData, numRanks, numLocalExperts, e - 1, FirstVisit(e - 1, numRanks), numRanks);
    }
  }

  /** What the host stores for a pair of local expert and source rank, from the received data alone. */
  ghost predicate IsStoredPair(recvData: seq<int>, numRanks: nat, numLocalExperts: nat, localE: nat, srcRank: nat,
                               recvCount: seq<int>, recvOffset: seq<int>) {
    var i, p := localE * numRanks + srcRank, 3 * (srcRank * numLocalExperts + localE);
    && 0 <= i < |recvCount| == |recvOffset| && 0 <= p < p + 1 < |recvData|
    && recvCount[i] == Int32(SentTo(recvData, numRanks, numLocalExperts, localE)
                             + SentBy(recvData, numLocalExperts, localE, srcRank + 1))
    && recvOffset[i] == recvData[p + 1]
  }

  lemma StoredPairIs(r: Received, recvData: seq<int>, numRanks: nat, numLocalExperts: nat, localE: nat, srcRank: nat,
                     recvCount: seq<int>, recvOffset: seq<int>, total: int, max: int)
    requires AreRows(r, recvData, numRanks, numLocalExperts) && localE < numLocalExperts && srcRank < numRanks
    requires TotalsUpTo(r, |r.counts|, recvCount, recvOffset, total, max)
    ensures IsStoredPair(recvData, numRanks, numLocalExperts, localE, srcRank, recvCount, recvOffset)
  {
    hide SentTo, SentBy, IsMaximum;
    var base := FirstVisit(localE, numRanks);
    FirstVisitIsProduct(localE, numRanks);
    SentToIs(r, recvData, numRanks, numLocalExperts, localE);
    assert IsRow(r, recvData, numRanks, numLocalExperts, localE, base);
    SentByIs(r, recvData, numRanks, numLocalExperts, localE, base, srcRank + 1);
    assert IsTriple(r, recvData, numLocalExperts, localE, base, srcRank);
  }

  lemma ExpertTotalIs(r: Received, recvData: seq<int>, numRanks: nat, numLocalExperts: nat, e: nat, total: int)
    requires AreRows(r, recvData, numRanks, numLocalExperts) && e < numLocalExperts
    requires IsExpertTotal(r.counts, numRanks, e, total)
    ensures total == SentBy(recvData, numLocalExperts, e, numRanks)
  {
    hide IsRow, SentBy, FirstVisit;
    SentByIs(r, recvData, numRanks, numLocalExperts, e, FirstVisit(e, numRanks), numRanks);
  }

  /**
   Turns the received triples into running totals.  The running total is 64 bits wide
   but is stored through a 32-bit `int` array, so every stored total is its 32-bit image.
   `r` lists the triples in visit order; `ReceivedRow` shows that every data has one.
   */
  method RunningTotals(recvData: array<int>, numRanks: nat, numLocalExperts: nat, ghost r: Received)
    returns (recvCount: array<int>, recvOffset: array<int>, perExpert: seq<int>, totalRecvTokens: int,
             maxDispatchTokens: int)
    requires AreRows(r, recvData[..], numRanks, numLocalExperts)
    ensures TotalsUpTo(r, |r.counts|, recvCount[..], recvOffset[..], totalRecvTokens, maxDispatchTokens)
    ensures |perExpert| == numLocalExperts && AreExpertTotals(r.counts, numRanks, perExpert)
    ensures totalRecvTokens == Prefix(perExpert, numLocalExperts) == SentTo(recvData[..], numRanks, numLocalExperts, numLocalExperts)
    ensures forall e :: 0 <= e < numLocalExperts ==> perExpert[e] == SentBy(recvData[..], numLocalExperts, e, numRanks)
    ensures forall e, src :: 0 <= e < numLocalExperts && 0 <= src < numRanks ==>
              IsStoredPair(recvData[..], numRanks, numLocalExperts, e, src, recvCount[..], recvOffset[..])
  {
    hide SentBy, SentTo, IsStoredPair;
    ghost var data := recvData[..];
    var numExperts := numLocalExperts * numRanks;
    recvCount := new int[numExperts];
    recvOffset := new int[numExperts];
    totalRecvTokens, maxDispatchTokens, perExpert := 0, 0, [];
    var localE := 0;
    while localE < numLocalExperts
      invariant 0 <= localE == |perExpert| <= numLocalExperts && recvData[..] == data
      invariant TotalsUpTo(r, FirstVisit(localE, numRanks), recvCount[..], recvOffset[..],
                           totalRecvTokens, maxDispatchTokens)
      invariant AreExpertTotals(r.counts, numRanks, perExpert)
      invariant totalRecvTokens == Prefix(perExpert, localE)
    {
      var localExpertRecvTokens;
      FirstVisitIsProduct(localE, numRanks);
      assert IsRow(r, data, numRanks, numLocalExperts, localE, FirstVisit(localE, numRanks));
      totalRecvTokens, maxDispatchTokens, localExpertRecvTokens :=
        ExpertTotals(recvData, numRanks, numLocalExperts, localE, FirstVisit(localE, numRanks),
                     recvCount, recvOffset, totalRecvTokens, maxDispatchTokens, r);
      AppendExpertTotal(r.counts, numRanks, perExpert, localExpertRecvTokens);
      perExpert := perExpert + [localExpertRecvTokens];
      localE := localE + 1;
    }
    FirstVisitIsProduct(numLocalExperts, numRanks);
    FromDataAlone(r, data, numRanks, numLocalExperts, recvCount[..], recvOffset[..], perExpert, totalRecvTokens,
                  maxDispatchTokens);
  }

  /** The totals of the visits, read back from the received data. */
  lemma FromDataAlone(r: Received, recvData: seq<int>, numRanks: nat, numLocalExperts: nat, recvCount: seq<int>,
                      recvOffset: seq<int>, perExpert: seq<int>, total: int, max: int)
    requires AreRows(r, recvData, numRanks, numLocalExperts)
    requires TotalsUpTo(r, |r.counts|, recvCount, recvOffset, total, max)
    requires |perExpert| == numLocalExperts && AreExpertTotals(r.counts, numRanks, perExpert)
    ensures total == SentTo(recvData, numRanks, numLocalExperts, numLocalExperts)
    ensures forall e :: 0 <= e < numLocalExperts ==> perExpert[e] == SentBy(recvData, numLocalExperts, e, numRanks)
    ensures forall e, src :: 0 <= e < numLocalExperts && 0 <= src < numRanks ==>
              IsStoredPair(recvData, numRanks, numLocalExperts, e, src, recvCount, recvOffset)
  {
    hide SentBy, SentTo, IsStoredPair, IsExpertTotal, IsMaximum, IsRow;
    FirstVisitIsProduct(numLocalExperts, numRanks);
    SentToIs(r, recvData, numRanks, numLocalExperts, numLocalExperts);
    forall e | 0 <= e < numLocalExperts
      ensures perExpert[e] == SentBy(recvData, numLocalExperts, e, numRanks)
    {
      ExpertTotalIs(r, recvData, numRanks, numLocalExperts, e, perExpert[e]);
    }
    forall e, src | 0 <= e < numLocalExperts && 0 <= src < numRanks
      ensures IsStoredPair(recvData, numRanks, numLocalExperts, e, src, recvCount, recvOffset)
    {
      StoredPairIs(r, recvData, numRanks, numLocalExperts, e, src, recvCount, recvOffset, total, max);
    }
  }

  lemma {:induction false} PrefixAppend(s: seq<int>, x: int, n: nat)
    requires n <= |s|
    ensures Prefix(s + [x], n) == Prefix(s, n)
    ensures Prefix(s + [x], |s| + 1) == Prefix(s + [x], |s|) + x
  {
    if n > 0 { PrefixAppend(s, x, n - 1); }
  }
}
