/**
 Where the entries of all ranks end up.

 The rank that owns an entry's expert copies, for every (local expert, source rank)
 pair, the tokens that the source rank numbered for that expert.  It computes with
 unsigned 32-bit integers: the block of a pair starts at the running total before
 it, and the size of the block is the difference of two running totals.  The host
 reserves as many rows as the total says, converted to a signed 32-bit integer.  The
 exchange of the counts is a device collective: what it delivers is the assumption
 `Exchanged`.
 */
module DispatchPlacement {
  import opened Arith
  import opened Dispatch

  const MAX_EP_WORLD_SIZE := 384
  const MOE_EXPERT_MAX_NUM := 512
  const BS_UPPER_BOUND := 8000
  const K_MAX := 16
  const H_MIN := 1024
  const H_MAX := 7168

  /** As many entries as 512 pairs of 8000 tokens with 16 choices can have. */
  const MAX_TOTAL := 65_536_000

  // ----- all ranks together

  /** The routing table of one rank, row-major: `idx[token * topK + k]` is an expert or negative. */
  datatype Routing = Routing(numTokens: nat, topK: nat, idx: seq<int>)

  /** One routing table per rank, indexed with 32-bit integers; rank `d` owns the experts from `d * localExperts` on. */
  datatype Cluster = Cluster(localExperts: nat, routings: seq<Routing>)
  {
    predicate Valid() {
      && 0 < |routings| && 0 < localExperts
      && forall r :: 0 <= r < |routings| ==>
           && |routings[r].idx| == routings[r].numTokens * routings[r].topK <= INT32_MAX
           && forall p :: 0 <= p < |routings[r].idx| ==> routings[r].idx[p] < |routings| * localExperts
    }

    /** How many entries rank `src` routes to expert `e`. */
    function Sent(src: nat, e: int): nat
      requires src < |routings|
    {
      Occurrences(routings[src].idx, e, |routings[src].idx|)
    }

    /** The counts that rank `dst` visits, in (local expert, source rank) order. */
    function CountsAt(dst: nat): (r: seq<int>)
      requires 0 < |routings|
      ensures |r| == localExperts * |routings| && NonNegative(r)
    {
      seq(localExperts * |routings|, i requires 0 <= i < localExperts * |routings| =>
        Sent(i % |routings|, dst * localExperts + i / |routings|))
    }

    /** The tokens that rank `dst` receives. */
    function Total(dst: nat): int
      requires 0 < |routings|
    {
      Prefix(CountsAt(dst), localExperts * |routings|)
    }

    /** The running totals that rank `dst` stores. */
    function StoredAt(dst: nat): (r: seq<int>)
      requires 0 < |routings|
      ensures |r| == localExperts * |routings| && IsStored(CountsAt(dst), r)
    {
      var counts := CountsAt(dst);
      seq(|counts|, i requires 0 <= i < |counts| => Int32(Prefix(counts, i + 1)))
    }

    /** A rank has at most 2^31 entries, so no count is larger. */
    lemma SentFits(src: nat, e: int)
      requires Valid() && src < |routings|
      ensures Sent(src, e) < TWO_32
    {
      OccurrencesBound(routings[src].idx, e, |routings[src].idx|);
    }
  }

  /** What the exchange delivers to rank `dst`: every sender's counts for the experts of `dst`. */
  ghost predicate Exchanged(c: Cluster, dst: nat, recvData: seq<int>)
    requires c.Valid()
  {
    && |recvData| == SEND_PER_GROUP * (|c.routings| * c.localExperts)
    && forall src, localE :: 0 <= src < |c.routings| && 0 <= localE < c.localExperts ==> Delivered(c, dst, recvData, src, localE)
  }

  /** The count of one sender for one expert of `dst` lies at the start of its triple. */
  ghost predicate Delivered(c: Cluster, dst: nat, recvData: seq<int>, src: nat, localE: nat)
    requires c.Valid() && src < |c.routings|
  {
    var p := 3 * (src * c.localExperts + localE);
    0 <= p < |recvData| && recvData[p] == c.Sent(src, dst * c.localExperts + localE)
  }

  /** With the exchange as assumed, the host loop of `dst` runs over exactly the counts of `dst`. */
  lemma ExchangedCounts(c: Cluster, dst: nat, recvData: seq<int>)
    requires c.Valid() && Exchanged(c, dst, recvData)
    ensures ReceivedOf(recvData, |c.routings|, c.localExperts).counts == c.CountsAt(dst)
  {
    var n := |c.routings|;
    var counts := ReceivedOf(recvData, n, c.localExperts).counts;
    forall i | 0 <= i < c.localExperts * n
      ensures counts[i] == c.CountsAt(dst)[i]
    {
      RowMajorCell(i, c.localExperts, n);
      assert Delivered(c, dst, recvData, i % n, i / n);
      TransposedAt(recvData, n, c.localExperts, i / n, i % n, 0);
    }
  }

  /** A routed entry: choice `k` of token `token` on rank `rank`. */
  datatype Entry = Entry(rank: nat, token: nat, k: nat)

  predicate IsEntry(c: Cluster, en: Entry)
    requires c.Valid()
  {
    && en.rank < |c.routings| && en.token < c.routings[en.rank].numTokens && en.k < c.routings[en.rank].topK
    && ExpertOf(c, en) >= 0
  }

  function FlatIndex(c: Cluster, en: Entry): (p: nat)
    requires c.Valid()
    requires en.rank < |c.routings| && en.token < c.routings[en.rank].numTokens && en.k < c.routings[en.rank].topK
    ensures p < |c.routings[en.rank].idx|
  {
    RowMajorBound(en.token, en.k, c.routings[en.rank].numTokens, c.routings[en.rank].topK);
    en.token * c.routings[en.rank].topK + en.k
  }

  function ExpertOf(c: Cluster, en: Entry): int
    requires c.Valid()
    requires en.rank < |c.routings| && en.token < c.routings[en.rank].numTokens && en.k < c.routings[en.rank].topK
  {
    c.routings[en.rank].idx[FlatIndex(c, en)]
  }

  /** The running index at which the owner of an entry's expert counts the entry. */
  function VisitOf(c: Cluster, en: Entry): (i: nat)
    requires c.Valid() && IsEntry(c, en)
    ensures i < c.localExperts * |c.routings|
  {
    var localE := ExpertOf(c, en) % c.localExperts;
    RowMajorBound(localE, en.rank, c.localExperts, |c.routings|);
    localE * |c.routings| + en.rank
  }

  lemma OwnerInRange(c: Cluster, en: Entry)
    requires c.Valid() && IsEntry(c, en)
    ensures 0 <= ExpertOf(c, en) / c.localExperts < |c.routings|
  {
    RowMajorCell(ExpertOf(c, en), |c.routings|, c.localExperts);
  }

  /** An entry is counted at its visit, and its expert is the one that visit belongs to. */
  lemma VisitCounts(c: Cluster, en: Entry)
    requires c.Valid() && IsEntry(c, en)
    ensures var e, i := ExpertOf(c, en), VisitOf(c, en);
            && i % |c.routings| == en.rank
            && (e / c.localExperts) * c.localExperts + i / |c.routings| == e
            && 0 <= e / c.localExperts
            && c.CountsAt(e / c.localExperts)[i] == c.Sent(en.rank, e)
  {
    var e := ExpertOf(c, en);
    OwnerInRange(c, en);
    RowMajor(e % c.localExperts, en.rank, |c.routings|);
  }

  // ----- positions without a width

  /** How many earlier entries of its rank go to the same expert: the number of the entry. */
  function NumberOf(c: Cluster, en: Entry): nat
    requires c.Valid() && IsEntry(c, en)
  {
    Occurrences(c.routings[en.rank].idx, ExpertOf(c, en), FlatIndex(c, en))
  }

  /** The rank owning an entry's expert, and the entry's place among everything that rank receives. */
  function Position(c: Cluster, en: Entry): (int, int)
    requires c.Valid() && IsEntry(c, en)
  {
    OwnerInRange(c, en);
    var dst := ExpertOf(c, en) / c.localExperts;
    (dst, Prefix(c.CountsAt(dst), VisitOf(c, en)) + NumberOf(c, en))
  }

  /** An entry's number is below the count of its pair. */
  lemma NumberBelowCount(c: Cluster, en: Entry)
    requires c.Valid() && IsEntry(c, en)
    ensures var dst := ExpertOf(c, en) / c.localExperts;
            0 <= dst < |c.routings| && NumberOf(c, en) < c.CountsAt(dst)[VisitOf(c, en)]
  {
    var s := c.routings[en.rank].idx;
    OwnerInRange(c, en);
    VisitCounts(c, en);
    OccurrencesMonotone(s, ExpertOf(c, en), FlatIndex(c, en), |s|);
  }

  /** An entry's position lies in the block that its (local expert, source rank) pair owns. */
  lemma PositionInBlock(c: Cluster, en: Entry)
    requires c.Valid() && IsEntry(c, en)
    ensures var (dst, pos) := Position(c, en);
            && 0 <= dst < |c.routings| && 0 <= pos < c.Total(dst)
            && Prefix(c.CountsAt(dst), VisitOf(c, en)) <= pos < Prefix(c.CountsAt(dst), VisitOf(c, en) + 1)
  {
    var dst, i := ExpertOf(c, en) / c.localExperts, VisitOf(c, en);
    NumberBelowCount(c, en);
    var counts := c.CountsAt(dst);
    PrefixMonotone(counts, i, i + 1);
    PrefixMonotone(counts, i + 1, |counts|);
  }

  /** Two entries never have the same position. */
  lemma PositionInjective(c: Cluster, a: Entry, b: Entry)
    requires c.Valid() && IsEntry(c, a) && IsEntry(c, b)
    requires Position(c, a) == Position(c, b)
    ensures a == b
  {
    var (dst, pos) := Position(c, a);
    PositionInBlock(c, a);
    PositionInBlock(c, b);
    SameBlock(c.CountsAt(dst), VisitOf(c, a), VisitOf(c, b), pos);
    VisitCounts(c, a);
    VisitCounts(c, b);
    var s, e := c.routings[a.rank].idx, ExpertOf(c, a);
    var p, q := FlatIndex(c, a), FlatIndex(c, b);
    if p < q { OccurrencesMonotone(s, e, p, q); }
    if q < p { OccurrencesMonotone(s, e, q, p); }
    RowMajor(a.token, a.k, c.routings[a.rank].topK);
    RowMajor(b.token, b.k, c.routings[b.rank].topK);
  }

  /** The entry at a given flat position of a rank's table. */
  lemma EntryAt(c: Cluster, src: nat, p: nat) returns (en: Entry)
    requires c.Valid() && src < |c.routings| && p < |c.routings[src].idx| && c.routings[src].idx[p] >= 0
    ensures IsEntry(c, en) && en.rank == src && FlatIndex(c, en) == p
  {
    var topK := c.routings[src].topK;
    assert topK > 0;
    RowMajorCell(p, c.routings[src].numTokens, topK);
    en := Entry(src, p / topK, p % topK);
  }

  /** An entry for the expert of visit `i` of rank `dst` is counted at that visit. */
  lemma VisitOfExpert(c: Cluster, en: Entry, dst: nat, i: nat)
    requires c.Valid() && IsEntry(c, en) && i < c.localExperts * |c.routings|
    requires en.rank == i % |c.routings| && ExpertOf(c, en) == dst * c.localExperts + i / |c.routings|
    ensures VisitOf(c, en) == i && Position(c, en).0 == dst
  {
    RowMajorCell(i, c.localExperts, |c.routings|);
    RowMajor(dst, i / |c.routings|, c.localExperts);
  }

  /** Every position below a rank's total is that of some entry. */
  lemma PositionSurjective(c: Cluster, dst: nat, pos: nat) returns (en: Entry)
    requires c.Valid() && dst < |c.routings| && pos < c.Total(dst)
    ensures IsEntry(c, en) && Position(c, en) == (dst, pos)
  {
    var n, counts := |c.routings|, c.CountsAt(dst);
    var i := BlockOf(counts, |counts|, pos);
    var src, e := i % n, dst * c.localExperts + i / n;
    var s := c.routings[src].idx;
    assert counts[i] == c.Sent(src, e);
    var p := PositionOf(s, e, |s|, pos - Prefix(counts, i));
    RowMajorCell(i, c.localExperts, n);
    MulMonotone(0, dst, c.localExperts);
    en := EntryAt(c, src, p);
    VisitOfExpert(c, en, dst, i);
  }

  // ----- what the kernel computes

  /** `preCount`: the stored total before visit `i`, read as an unsigned integer. */
  function PreCount(recvCount: seq<int>, i: nat): nat
    requires i <= |recvCount|
  {
    if i == 0 then 0 else Uint32(recvCount[i - 1])
  }

  /** `count`: the number of tokens copied at visit `i`, an unsigned difference. */
  function CopyCount(recvCount: seq<int>, i: nat): nat
    requires i < |recvCount|
  {
    Uint32(recvCount[i] - PreCount(recvCount, i))
  }

  /** `targetOffset + j`: the slot of token `j` of visit `i`. */
  function KernelSlot(recvCount: seq<int>, i: nat, j: nat): nat
    requires i < |recvCount|
  {
    Uint32(PreCount(recvCount, i) + j)
  }

  /** The running totals of the counts, as the host stores them. */
  ghost predicate IsStored(counts: seq<int>, recvCount: seq<int>) {
    |recvCount| == |counts| && forall i :: 0 <= i < |counts| ==> recvCount[i] == Int32(Prefix(counts, i + 1))
  }

  /** However large the totals, every pair is copied completely, to its true position modulo 2^32. */
  lemma KernelIsModular(counts: seq<int>, recvCount: seq<int>, i: nat, j: nat)
    requires IsStored(counts, recvCount) && i < |counts| && 0 <= counts[i] < TWO_32
    ensures CopyCount(recvCount, i) == counts[i]
    ensures KernelSlot(recvCount, i, j) == Uint32(Prefix(counts, i) + j)
  {
    var before, after := Prefix(counts, i), Prefix(counts, i + 1);
    UnsignedOfSigned(before);
    UnsignedOfSigned(after);
    if i > 0 { assert recvCount[i - 1] == Int32(before); }
    assert PreCount(recvCount, i) == Uint32(before);
    Uint32Add(before, j);
    var back := 0 - Uint32(before);
    Uint32Add(Int32(after), back);
    Uint32Add(after, back);
    Uint32Subtract(after, before);
    assert Uint32(counts[i]) == counts[i];
  }

  /** The block of visit `i` holds the tokens of that visit in order. */
  ghost predicate CopiedAt(counts: seq<int>, i: nat, out: seq<(nat, nat)>)
    requires i < |counts|
  {
    && 0 <= Prefix(counts, i) && Prefix(counts, i) + counts[i] <= |out|
    && forall j :: 0 <= j < counts[i] ==> out[Prefix(counts, i) + j] == (i, j)
  }

  ghost predicate Copied(counts: seq<int>, n: nat, out: seq<(nat, nat)>) {
    n <= |counts| && forall i :: 0 <= i < n ==> CopiedAt(counts, i, out)
  }

  /** Writing behind the copied blocks keeps them. */
  lemma CopiedKeeps(counts: seq<int>, n: nat, out: seq<(nat, nat)>, out': seq<(nat, nat)>)
    requires Copied(counts, n, out) && |out| == |out'| && NonNegative(counts)
    requires forall p :: 0 <= p < |out| && p < Prefix(counts, n) ==> out'[p] == out[p]
    ensures Copied(counts, n, out')
  {
    forall i | 0 <= i < n
      ensures CopiedAt(counts, i, out')
    {
      assert CopiedAt(counts, i, out);
      PrefixMonotone(counts, i + 1, n);
    }
  }

  lemma CopiedStep(counts: seq<int>, n: nat, out: seq<(nat, nat)>)
    requires n < |counts| && Copied(counts, n, out) && 0 <= Prefix(counts, n) && Prefix(counts, n) + counts[n] <= |out|
    requires forall j :: 0 <= j < counts[n] ==> out[Prefix(counts, n) + j] == (n, j)
    ensures Copied(counts, n + 1, out)
  {
    assert CopiedAt(counts, n, out);
  }

  /** The inner loop: copies the tokens of one visit behind those of the visits before. */
  method CopyBlock(recvCount: seq<int>, ghost counts: seq<int>, i: nat, out: array<(nat, nat)>)
    requires IsStored(counts, recvCount) && i < |counts| && NonNegative(counts) && counts[i] < TWO_32
    requires 0 <= Prefix(counts, i) && Prefix(counts, i + 1) <= out.Length <= TWO_32 && Copied(counts, i, out[..])
    modifies out
    ensures Copied(counts, i + 1, out[..])
    ensures forall p :: 0 <= Prefix(counts, i + 1) <= p < out.Length ==> out[p] == old(out[p])
  {
    KernelIsModular(counts, recvCount, i, 0);
    var count := CopyCount(recvCount, i);
    ghost var start := Prefix(counts, i);
    hide KernelSlot, CopyCount, IsStored;
    for j := 0 to count
      invariant forall k :: 0 <= k < j ==> out[start + k] == (i, k)
      invariant forall p :: 0 <= p < out.Length && !(start <= p < start + j) ==> out[p] == old(out[p])
    {
      KernelIsModular(counts, recvCount, i, j);
      out[KernelSlot(recvCount, i, j)] := (i, j);
    }
    CopiedKeeps(counts, i, old(out[..]), out[..]);
    CopiedStep(counts, i, out[..]);
  }

  /**
   The copy loops of the kernel over all visits: `out` records for every slot the visit and the number of the
   token that was written to it.  With a receive buffer that holds the total, every token lands at its true position.
   */
  method ShareToOutput(recvCount: seq<int>, ghost counts: seq<int>, out: array<(nat, nat)>)
    requires IsStored(counts, recvCount) && forall i :: 0 <= i < |counts| ==> 0 <= counts[i] < TWO_32
    requires 0 <= Prefix(counts, |counts|) <= out.Length <= TWO_32
    modifies out
    ensures Copied(counts, |counts|, out[..])
    ensures forall p :: Prefix(counts, |counts|) <= p < out.Length ==> out[p] == old(out[p])
  {
    assert Copied(counts, 0, out[..]);
    hide Copied, IsStored;
    for i := 0 to |recvCount|
      invariant |recvCount| == |counts| && 0 <= Prefix(counts, i)
      invariant Copied(counts, i, out[..])
      invariant forall p :: Prefix(counts, i) <= p < out.Length ==> out[p] == old(out[p])
    {
      PrefixMonotone(counts, i, i + 1);
      PrefixMonotone(counts, i + 1, |counts|);
      CopyBlock(recvCount, counts, i, out);
    }
  }

  /** Where an entry lands: the rank owning its expert, and the slot the kernel of that rank computes. */
  function Target(c: Cluster, en: Entry): (int, int)
    requires c.Valid() && IsEntry(c, en)
  {
    OwnerInRange(c, en);
    var dst := ExpertOf(c, en) / c.localExperts;
    (dst, KernelSlot(c.StoredAt(dst), VisitOf(c, en), NumberOf(c, en)))
  }

  /** The kernel's slot is the position modulo 2^32, and every entry is among the tokens that are copied. */
  lemma TargetIsPosition(c: Cluster, en: Entry)
    requires c.Valid() && IsEntry(c, en)
    ensures Target(c, en).0 == Position(c, en).0 && Target(c, en).1 == Uint32(Position(c, en).1)
    ensures 0 <= Target(c, en).0 < |c.routings|
    ensures NumberOf(c, en) < CopyCount(c.StoredAt(Target(c, en).0), VisitOf(c, en))
  {
    var dst, i := ExpertOf(c, en) / c.localExperts, VisitOf(c, en);
    NumberBelowCount(c, en);
    c.SentFits(i % |c.routings|, dst * c.localExperts + i / |c.routings|);
    KernelIsModular(c.CountsAt(dst), c.StoredAt(dst), i, NumberOf(c, en));
  }

  // ----- slots and rows

  ghost predicate Filled(c: Cluster, dst: nat, slot: nat)
    requires c.Valid()
  {
    exists en :: IsEntry(c, en) && Target(c, en) == (dst, slot)
  }

  /** The entries correspond one to one to the slots below `rows[dst]` of every rank `dst`. */
  ghost predicate IsBijection(c: Cluster, rows: seq<int>)
    requires c.Valid() && |rows| == |c.routings|
  {
    && (forall en :: IsEntry(c, en) ==>
          var (dst, slot) := Target(c, en); 0 <= dst < |c.routings| && 0 <= slot < rows[dst])
    && (forall a, b :: IsEntry(c, a) && IsEntry(c, b) && Target(c, a) == Target(c, b) ==> a == b)
    && (forall dst: nat, slot: nat :: dst < |c.routings| && slot < rows[dst] ==> Filled(c, dst, slot))
  }

  function Totals(c: Cluster): (r: seq<int>)
    requires c.Valid()
    ensures |r| == |c.routings|
  {
    seq(|c.routings|, d requires 0 <= d < |c.routings| => c.Total(d))
  }

  predicate TotalsWithin(c: Cluster, bound: nat)
    requires c.Valid()
  {
    forall d :: 0 <= d < |c.routings| ==> c.Total(d) <= bound
  }

  /** As long as the totals are within 2^32 the slots are the positions. */
  lemma SlotIsPosition(c: Cluster, en: Entry)
    requires c.Valid() && IsEntry(c, en) && TotalsWithin(c, TWO_32)
    ensures Target(c, en) == Position(c, en)
  {
    TargetIsPosition(c, en);
    PositionInBlock(c, en);
    assert c.Total(Position(c, en).0) <= TWO_32;
  }

  /** Beyond 2^32 the entries at positions 0 and 2^32 of a rank overwrite each other. */
  lemma SlotsCollide(c: Cluster, dst: nat) returns (a: Entry, b: Entry)
    requires c.Valid() && dst < |c.routings| && TWO_32 < c.Total(dst)
    ensures IsEntry(c, a) && IsEntry(c, b) && a != b && Target(c, a) == Target(c, b) == (dst, 0)
  {
    a := PositionSurjective(c, dst, 0);
    b := PositionSurjective(c, dst, TWO_32);
    TargetIsPosition(c, a);
    TargetIsPosition(c, b);
  }

  lemma BijectionWithin(c: Cluster)
    requires c.Valid() && TotalsWithin(c, TWO_32)
    ensures IsBijection(c, Totals(c))
  {
    var rows := Totals(c);
    forall en | IsEntry(c, en)
      ensures var (dst, slot) := Target(c, en); 0 <= dst < |c.routings| && 0 <= slot < rows[dst]
    {
      SlotIsPosition(c, en);
      PositionInBlock(c, en);
    }
    forall a, b | IsEntry(c, a) && IsEntry(c, b) && Target(c, a) == Target(c, b)
      ensures a == b
    {
      SlotIsPosition(c, a);
      SlotIsPosition(c, b);
      PositionInjective(c, a, b);
    }
    forall dst: nat, slot: nat | dst < |c.routings| && slot < rows[dst]
      ensures Filled(c, dst, slot)
    {
      var en := PositionSurjective(c, dst, slot);
      SlotIsPosition(c, en);
    }
  }

  /**
   For any number of ranks and any routing tables, nothing is lost and nothing is overwritten among the
   slots that the kernels compute, exactly when no rank receives more than 2^32 entries.
   */
  lemma SlotsAreBijection(c: Cluster)
    requires c.Valid()
    ensures IsBijection(c, Totals(c)) <==> TotalsWithin(c, TWO_32)
  {
    if TotalsWithin(c, TWO_32) {
      BijectionWithin(c);
    } else {
      var dst :| 0 <= dst < |c.routings| && c.Total(dst) > TWO_32;
      var a, b := SlotsCollide(c, dst);
    }
  }

  /** `total_cnt`: the rows that the host reserves on every rank, not counting the one of a rank that receives nothing. */
  function Rows(c: Cluster): (r: seq<int>)
    requires c.Valid()
    ensures |r| == |c.routings|
  {
    seq(|c.routings|, d requires 0 <= d < |c.routings| => Int32(c.Total(d)))
  }

  /**
   The entries correspond one to one to the reserved rows exactly when every total fits the signed
   32-bit integer that sizes the receive buffers.
   */
  lemma DispatchIsBijection(c: Cluster)
    requires c.Valid()
    ensures IsBijection(c, Rows(c)) <==> TotalsWithin(c, INT32_MAX)
  {
    if TotalsWithin(c, INT32_MAX) {
      forall d | 0 <= d < |c.routings|
        ensures c.Total(d) <= TWO_32 && Rows(c)[d] == c.Total(d)
      {
        TotalNonNegative(c, d);
      }
      assert Rows(c) == Totals(c);
      BijectionWithin(c);
    } else {
      var dst :| 0 <= dst < |c.routings| && c.Total(dst) > INT32_MAX;
      if TWO_32 < c.Total(dst) {
        var a, b := SlotsCollide(c, dst);
      } else {
        var en := LastEntryUnplaced(c, dst);
      }
    }
  }

  lemma TotalNonNegative(c: Cluster, dst: nat)
    requires c.Valid()
    ensures 0 <= c.Total(dst)
  {
    PrefixMonotone(c.CountsAt(dst), 0, |c.CountsAt(dst)|);
  }

  /** Between 2^31 and 2^32 every slot is right, but the last entry lies beyond the rows that are reserved. */
  lemma LastEntryUnplaced(c: Cluster, dst: nat) returns (en: Entry)
    requires c.Valid() && dst < |c.routings| && INT32_MAX < c.Total(dst) <= TWO_32
    ensures IsEntry(c, en) && Target(c, en) == (dst, c.Total(dst) - 1) && Rows(c)[dst] <= 0
  {
    en := PositionSurjective(c, dst, c.Total(dst) - 1);
    TargetIsPosition(c, en);
  }

  // ----- where a row is written

  /** The offset at which the kernel writes a slot of an output with `width` elements a slot. */
  function RowOffset(slot: nat, width: nat): nat {
    Uint32(slot * width)
  }

  /**
   Rows of `width` elements are written where they belong exactly when the last of them starts below 2^32.
   `width` is the hidden size for the tokens, 3 for the triples and 1 for the scales.
   */
  lemma RowsArePlaced(total: nat, width: nat)
    ensures (forall slot :: 0 <= slot < total ==> RowOffset(slot, width) == slot * width)
       <==> total == 0 || (total - 1) * width < TWO_32
  {
    if total > 0 {
      if (total - 1) * width < TWO_32 {
        forall slot | 0 <= slot < total
          ensures RowOffset(slot, width) == slot * width
        {
          MulMonotone(slot, total - 1, width);
          MulMonotone(0, slot, width);
        }
      } else {
        assert RowOffset(total - 1, width) != (total - 1) * width;
      }
    }
  }

  /** Every entry's hidden vector is written to the row of its own in a buffer that holds it. */
  ghost predicate TokensPlaced(c: Cluster, hidden: nat)
    requires c.Valid()
  {
    && IsBijection(c, Rows(c))
    && forall dst: nat, slot: nat :: dst < |c.routings| && slot < c.Total(dst) ==> RowOffset(slot, hidden) == slot * hidden
  }

  /** The exact condition for the tokens: every total fits, and no row starts at element 2^32 or later. */
  lemma TokensArePlaced(c: Cluster, hidden: nat)
    requires c.Valid()
    ensures TokensPlaced(c, hidden)
       <==> forall d :: 0 <= d < |c.routings| ==>
              c.Total(d) <= INT32_MAX && (c.Total(d) == 0 || (c.Total(d) - 1) * hidden < TWO_32)
  {
    DispatchIsBijection(c);
    forall d | 0 <= d < |c.routings|
      ensures 0 <= c.Total(d)
      ensures (forall slot: nat :: slot < c.Total(d) ==> RowOffset(slot, hidden) == slot * hidden)
         <==> c.Total(d) == 0 || (c.Total(d) - 1) * hidden < TWO_32
    {
      TotalNonNegative(c, d);
      RowsArePlaced(c.Total(d), hidden);
    }
  }

  // ----- within the limits of the op

  /** The bytes that one token takes in a communication window. */
  function WindowBytes(hidden: nat): nat {
    var length := RoundUp(2 * hidden, 32) + 44;
    RoundUp(length, 512)
  }

  /**
   What the host check of the op accepts on every rank: the shapes, and communication windows of `window`
   megabytes that hold two buffers of the largest batch.
   */
  ghost predicate Accepted(c: Cluster, hidden: nat, window: nat)
    requires c.Valid()
  {
    && 2 <= |c.routings| <= MAX_EP_WORLD_SIZE && |c.routings| * c.localExperts <= MOE_EXPERT_MAX_NUM
    && H_MIN <= hidden <= H_MAX
    && forall r :: 0 <= r < |c.routings| ==>
         && 0 < c.routings[r].numTokens <= BS_UPPER_BOUND
         && 0 < c.routings[r].topK <= K_MAX && c.routings[r].topK <= |c.routings| * c.localExperts
         && forall r' :: 0 <= r' < |c.routings| ==>
              c.routings[r'].numTokens * c.routings[r].topK * WindowBytes(hidden) * 2 <= window * 0x10_0000
  }

  /** No count exceeds the entries of one rank, so the sum of `n` counts is bounded. */
  lemma {:induction false} PrefixBound(s: seq<int>, n: nat, bound: nat)
    requires n <= |s| && forall i :: 0 <= i < |s| ==> 0 <= s[i] <= bound
    ensures Prefix(s, n) <= n * bound
  {
    if n > 0 {
      PrefixBound(s, n - 1, bound);
      MulStep(n - 1, bound);
    }
  }

  lemma CountAtMost(c: Cluster, hidden: nat, window: nat, dst: nat, i: nat)
    requires c.Valid() && Accepted(c, hidden, window) && i < c.localExperts * |c.routings|
    ensures c.CountsAt(dst)[i] <= BS_UPPER_BOUND * K_MAX
  {
    RowMajorCell(i, c.localExperts, |c.routings|);
    var r := c.routings[i % |c.routings|];
    OccurrencesBound(r.idx, dst * c.localExperts + i / |c.routings|, |r.idx|);
    MulMonotone(r.topK, K_MAX, r.numTokens);
    MulMonotone(r.numTokens, BS_UPPER_BOUND, K_MAX);
  }

  /** On every accepted input a rank receives at most 65536000 entries. */
  lemma AcceptedTotal(c: Cluster, hidden: nat, window: nat, dst: nat)
    requires c.Valid() && Accepted(c, hidden, window)
    ensures 0 <= c.Total(dst) <= MAX_TOTAL
  {
    var counts, n := c.CountsAt(dst), c.localExperts * |c.routings|;
    var bound := BS_UPPER_BOUND * K_MAX;
    forall i | 0 <= i < n
      ensures counts[i] <= bound
    {
      CountAtMost(c, hidden, window, dst, i);
    }
    PrefixBound(counts, n, bound);
    MulMonotone(n, MOE_EXPERT_MAX_NUM, bound);
    TotalNonNegative(c, dst);
  }

  /**
   So on every accepted input the entries correspond one to one to the reserved rows, and scales and triples are
   written where they belong, in buffers whose sizes do not overflow.
   */
  lemma AcceptedIsBijection(c: Cluster, hidden: nat, window: nat)
    requires c.Valid() && Accepted(c, hidden, window)
    ensures IsBijection(c, Rows(c))
    ensures forall d :: 0 <= d < |c.routings| ==> Int32(3 * Rows(c)[d]) == 3 * c.Total(d)
    ensures forall d: nat, slot: nat :: d < |c.routings| && slot < c.Total(d) ==>
              RowOffset(slot, 3) == slot * 3 && RowOffset(slot, 1) == slot
  {
    forall d | 0 <= d < |c.routings|
      ensures 0 <= c.Total(d) <= MAX_TOTAL
    {
      AcceptedTotal(c, hidden, window, d);
    }
    DispatchIsBijection(c);
  }

  /** What is left is the offset of a token's row: on accepted inputs it alone decides. */
  lemma AcceptedTokensPlaced(c: Cluster, hidden: nat, window: nat)
    requires c.Valid() && Accepted(c, hidden, window)
    ensures TokensPlaced(c, hidden) <==> forall d :: 0 <= d < |c.routings| ==> c.Total(d) == 0 || (c.Total(d) - 1) * hidden < TWO_32
  {
    forall d | 0 <= d < |c.routings|
      ensures c.Total(d) <= INT32_MAX
    {
      AcceptedTotal(c, hidden, window, d);
    }
    TokensArePlaced(c, hidden);
  }

  // ----- an accepted cluster whose tokens are misplaced

  /** A rank that sends all of its 8000 tokens to expert 0. */
  function CrowdedRouting(): Routing {
    Routing(BS_UPPER_BOUND, 1, seq(BS_UPPER_BOUND, _ => 0))
  }

  /** 75 such ranks, with one expert each. */
  function Crowded(): Cluster {
    Cluster(1, seq(75, _ => CrowdedRouting()))
  }

  lemma {:induction false} AllOccur(s: seq<int>, e: int, p: nat)
    requires p <= |s| && forall i :: 0 <= i < p ==> s[i] == e
    ensures Occurrences(s, e, p) == p
  {
    if p > 0 { AllOccur(s, e, p - 1); }
  }

  lemma {:induction false} ConstantPrefix(s: seq<int>, v: int, n: nat)
    requires n <= |s| && forall i :: 0 <= i < n ==> s[i] == v
    ensures Prefix(s, n) == n * v
  {
    if n > 0 { ConstantPrefix(s, v, n - 1); }
  }

  lemma CrowdedIsAccepted()
    ensures Crowded().Valid() && Accepted(Crowded(), H_MAX, 256)
  {
    assert RoundUp(14336, 32) == 14336 && RoundUp(14380, 512) == 14848;
    assert WindowBytes(H_MAX) == 14848;
  }

  lemma CrowdedTotal()
    ensures Crowded().Valid() && Crowded().Total(0) == 600000
  {
    var c, s := Crowded(), CrowdedRouting().idx;
    AllOccur(s, 0, |s|);
    var counts := c.CountsAt(0);
    forall i | 0 <= i < 75
      ensures counts[i] == BS_UPPER_BOUND
    {
      RowMajorCell(i, 1, 75);
      assert c.routings[i % 75] == CrowdedRouting();
    }
    ConstantPrefix(counts, BS_UPPER_BOUND, 75);
  }

  /** Rank 0 receives 600000 tokens of 7168 elements: the row of slot 599187 is written to element 5120. */
  lemma CrowdedIsMisplaced()
    ensures Crowded().Valid() && Accepted(Crowded(), H_MAX, 256)
    ensures Crowded().Total(0) == 600000 && RowOffset(599187, H_MAX) == 5120
    ensures IsBijection(Crowded(), Rows(Crowded())) && !TokensPlaced(Crowded(), H_MAX)
  {
    CrowdedIsAccepted();
    CrowdedTotal();
    hide Accepted, TokensPlaced;
    AcceptedIsBijection(Crowded(), H_MAX, 256);
    AcceptedTokensPlaced(Crowded(), H_MAX, 256);
  }

  // ----- the arrays of the host

  /**
   The arrays that the host loops leave behind are the ones the placement is about: the sender's
   `sendTokenIdx` comes from `NumberEntries`, the owner's totals from `RunningTotals`.
   */
  lemma HostArraysGiveTarget(c: Cluster, en: Entry, sendTokenIdx: seq<int>, recvData: seq<int>, recvCount: seq<int>,
                             recvOffset: seq<int>, totalRecvTokens: int, max: int)
    requires c.Valid() && IsEntry(c, en)
    requires var s := c.routings[en.rank].idx;
             |sendTokenIdx| == |s| && forall p :: 0 <= p < |s| && s[p] >= 0 ==> sendTokenIdx[p] == Occurrences(s, s[p], p)
    requires var dst := ExpertOf(c, en) / c.localExperts;
             0 <= dst < |c.routings| && Exchanged(c, dst, recvData)
    requires var r := ReceivedOf(recvData, |c.routings|, c.localExperts);
             TotalsUpTo(r, |r.counts|, recvCount, recvOffset, totalRecvTokens, max)
    ensures var dst := ExpertOf(c, en) / c.localExperts;
            && totalRecvTokens == c.Total(dst) && Int32(totalRecvTokens) == Rows(c)[dst]
            && recvCount == c.StoredAt(dst)
            && 0 <= sendTokenIdx[FlatIndex(c, en)] < CopyCount(recvCount, VisitOf(c, en))
            && Target(c, en) == (dst, KernelSlot(recvCount, VisitOf(c, en), sendTokenIdx[FlatIndex(c, en)]))
  {
    var dst := ExpertOf(c, en) / c.localExperts;
    ExchangedCounts(c, dst, recvData);
    OwnerInRange(c, en);
    assert recvCount == c.StoredAt(dst);
    TargetIsPosition(c, en);
  }
}
