/**
 Splitting the CPUs of a host between its NPUs.  Every worker process computes its own
 split, without talking to the others, from the same view of the machine.
 */
module CpuBinding {
  import opened Arith
  import opened Lists

  const MIN_CPUS_PER_NPU := 5

  datatype Failure = KeyError | AffinityConflict | InsufficientCpus | InvalidNpu

  datatype Result<+T> = Ok(value: T) | Err(failure: Failure)

  /** What a worker sees of the machine; the visible NPUs are the only thing that differs between workers. */
  datatype Machine = Machine(allowed: seq<int>, affinity: map<int, seq<int>>, allNpus: seq<int>, cpuNode: map<int, int>)

  // ----- topology mode

  /** `npu_affinity.get(npu, [])`. */
  function AffinityOf(m: Machine, npu: int): seq<int> {
    if npu in m.affinity then m.affinity[npu] else []
  }

  /** The CPUs of an NPU's affinity list that this process may use. */
  function BaseCpus(m: Machine, npu: int): seq<int> {
    Filter(AffinityOf(m, npu), cpu => cpu in m.allowed)
  }

  predicate Overlaps(m: Machine, npu: int) {
    exists cpu :: cpu in AffinityOf(m, npu) && cpu in m.allowed
  }

  function IsOverlapping(m: Machine): int -> bool {
    npu => Overlaps(m, npu)
  }

  function IsCandidate(m: Machine, visible: seq<int>): int -> bool {
    npu => npu in visible || Overlaps(m, npu)
  }

  /** The NPUs a worker takes into account: the visible ones, and those whose affinity meets its cpuset. */
  function Candidates(m: Machine, visible: seq<int>): seq<int> {
    Filter(m.allNpus, IsCandidate(m, visible))
  }

  /** The NPUs whose affinity meets the cpuset, whatever is visible. */
  function Overlapping(m: Machine): seq<int> {
    Filter(m.allNpus, IsOverlapping(m))
  }

  /** The NUMA table after the key was looked up: a missing key is inserted with an empty list. */
  function Looked(numa: map<int, seq<int>>, node: int): (r: map<int, seq<int>>)
    ensures node in r
  {
    if node in numa then numa else numa[node := []]
  }

  predicate OneNode(m: Machine, cpus: seq<int>)
    requires forall c :: c in cpus ==> c in m.cpuNode
  {
    cpus != [] && cpus[0] in m.cpuNode && forall c :: c in cpus ==> m.cpuNode[c] == m.cpuNode[cpus[0]]
  }

  /** What `extend_numa` returns, and the NUMA table it leaves. */
  function Extended(m: Machine, numa: map<int, seq<int>>, cpus: seq<int>): Result<(seq<int>, map<int, seq<int>>)>
    requires |numa| > 0
  {
    if cpus == [] then Ok(([], numa))
    else if exists c :: c in cpus && c !in m.cpuNode then Err(KeyError)
    else if !OneNode(m, cpus) then Ok((cpus, numa))
    else
      var next := (m.cpuNode[cpus[0]] + 1) % |numa|;
      var numa' := Looked(numa, next);
      Ok((SortedSet(cpus + Filter(numa'[next], cpu => cpu in m.allowed)), numa'))
  }

  /** The extended pools of a list of NPUs, computed in order with one evolving NUMA table. */
  function Pools(m: Machine, numa: map<int, seq<int>>, npus: seq<int>): (r: Result<(seq<seq<int>>, map<int, seq<int>>)>)
    requires |numa| > 0
    ensures r.Ok? ==> |r.value.0| == |npus| && |r.value.1| > 0
  {
    if npus == [] then Ok(([], numa))
    else
      match Pools(m, numa, npus[..|npus| - 1])
      case Err(e) => Err(e)
      case Ok((pools, numa1)) =>
        var base := BaseCpus(m, npus[|npus| - 1]);
        if base == [] then Err(AffinityConflict)
        else
          match Extended(m, numa1, base)
          case Err(e) => Err(e)
          case Ok((pool, numa2)) => Ok((pools + [pool], numa2))
  }

  /** The NPUs with a given pool, in order: one group of `groups`. */
  function GroupOf(npus: seq<int>, pools: seq<seq<int>>, pool: seq<int>): (g: seq<int>)
    requires |npus| == |pools|
    ensures forall x :: x in g ==> x in npus
  {
    if npus == [] then []
    else
      var n := |npus| - 1;
      assert npus == npus[..n] + [npus[n]];
      GroupOf(npus[..n], pools[..n], pool) + (if pools[n] == pool then [npus[n]] else [])
  }

  /** Part `i` of `n` parts of a list: equal lengths, the last part takes the remainder. */
  function Part(cpus: seq<int>, n: nat, i: nat): seq<int>
    requires i < n
  {
    PartBounds(cpus, n, i);
    var per := |cpus| / n;
    cpus[i * per..if i < n - 1 then (i + 1) * per else |cpus|]
  }

  lemma PartBounds(cpus: seq<int>, n: nat, i: nat)
    requires i < n
    ensures var per := |cpus| / n;
            0 <= i * per <= (i + 1) * per <= |cpus|
  {
    var per := |cpus| / n;
    assert 0 <= per by { if per < 0 { MulMonotone(per, -1, n); } }
    MulMonotone(0, i, per);
    MulStep(i, per);
    MulMonotone(i + 1, n, per);
    assert n * per == per * n;
  }

  function IndexOf(xs: seq<int>, x: int): (i: nat)
    requires x in xs
    ensures i < |xs| && xs[i] == x
  {
    if xs[0] == x then 0 else 1 + IndexOf(xs[1..], x)
  }

  /** How many of the first `k` pools equal `pool`. */
  function Sharing(pools: seq<seq<int>>, pool: seq<int>, k: nat): nat
    requires k <= |pools|
  {
    if k == 0 then 0 else Sharing(pools, pool, k - 1) + (if pools[k - 1] == pool then 1 else 0)
  }

  /** The pool of one NPU of a group that shares `pool`. */
  function FinalPool(group: seq<int>, pool: seq<int>, npu: int): seq<int>
    requires npu in group
  {
    if |group| == 1 then pool else Part(Sorted(pool), |group|, IndexOf(group, npu))
  }

  /** An NPU is in the group of its own pool. */
  lemma {:induction false} InOwnGroup(npus: seq<int>, pools: seq<seq<int>>, k: nat)
    requires |npus| == |pools| && k < |npus|
    ensures npus[k] in GroupOf(npus, pools, pools[k])
  {
    if k < |npus| - 1 { InOwnGroup(npus[..|npus| - 1], pools[..|npus| - 1], k); }
  }

  function PoolOf(npus: seq<int>, pools: seq<seq<int>>, npu: int): seq<int>
    requires |npus| == |pools| && npu in npus
  {
    pools[IndexOf(npus, npu)]
  }

  /** The pool an NPU ends up with, given the extended pools of all candidates. */
  function BoundPool(npus: seq<int>, pools: seq<seq<int>>, npu: int): seq<int>
    requires |npus| == |pools| && npu in npus
  {
    InOwnGroup(npus, pools, IndexOf(npus, npu));
    FinalPool(GroupOf(npus, pools, PoolOf(npus, pools, npu)), PoolOf(npus, pools, npu), npu)
  }

  /** What `build_cpu_pools` computes in topology mode for a worker that sees the NPUs `visible`. */
  function TopoPools(m: Machine, numa: map<int, seq<int>>, visible: seq<int>): Result<map<int, seq<int>>>
    requires |numa| > 0
  {
    var npus := Candidates(m, visible);
    match Pools(m, numa, npus)
    case Err(e) => Err(e)
    case Ok((pools, _)) => VisiblePools(npus, pools, visible)
  }

  /** The pools of the visible NPUs; a visible NPU that was not considered is a missing key. */
  function VisiblePools(npus: seq<int>, pools: seq<seq<int>>, visible: seq<int>): Result<map<int, seq<int>>>
    requires |npus| == |pools|
  {
    if exists npu :: npu in visible && npu !in npus then Err(KeyError)
    else Ok(map npu | npu in visible :: BoundPool(npus, pools, npu))
  }

  // ----- agreement between workers

  lemma {:induction false} PoolsNeedOverlap(m: Machine, numa: map<int, seq<int>>, npus: seq<int>, k: nat)
    requires |numa| > 0 && Pools(m, numa, npus).Ok? && k < |npus|
    ensures BaseCpus(m, npus[k]) != []
  {
    if k < |npus| - 1 { PoolsNeedOverlap(m, numa, npus[..|npus| - 1], k); }
  }

  lemma BaseMeansOverlap(m: Machine, npu: int)
    requires BaseCpus(m, npu) != []
    ensures Overlaps(m, npu)
  {
    var cpu := BaseCpus(m, npu)[0];
    assert cpu in BaseCpus(m, npu);
  }

  /** A worker that finishes without an error took exactly the overlapping NPUs into account. */
  lemma CandidatesOfSuccess(m: Machine, numa: map<int, seq<int>>, visible: seq<int>)
    requires |numa| > 0 && Pools(m, numa, Candidates(m, visible)).Ok?
    ensures Candidates(m, visible) == Overlapping(m)
  {
    var npus := Candidates(m, visible);
    forall npu | npu in m.allNpus
      ensures IsCandidate(m, visible)(npu) == IsOverlapping(m)(npu)
    {
      if npu in visible {
        assert IsCandidate(m, visible)(npu) && npu in npus;
        PoolsNeedOverlap(m, numa, npus, IndexOf(npus, npu));
        BaseMeansOverlap(m, npu);
      }
    }
    FilterAgree(m.allNpus, IsCandidate(m, visible), IsOverlapping(m));
  }

  /**
   Two workers with the same view of the machine but different visible NPUs, both finishing
   without an error, give every NPU that both see the same CPUs.
   */
  lemma WorkersAgree(m: Machine, numa: map<int, seq<int>>, visible: seq<int>, visible': seq<int>, npu: int)
    requires |numa| > 0 && TopoPools(m, numa, visible).Ok? && TopoPools(m, numa, visible').Ok?
    requires npu in visible && npu in visible'
    ensures TopoPools(m, numa, visible).value[npu] == TopoPools(m, numa, visible').value[npu]
  {
    CandidatesOfSuccess(m, numa, visible);
    CandidatesOfSuccess(m, numa, visible');
  }

  // ----- a shared pool is divided without overlap and without loss

  /** The end of part `i`: the parts lie end to end. */
  function PartEnd(cpus: seq<int>, n: nat, i: nat): nat
    requires i <= n && 0 < n
  {
    if i == 0 then 0
    else
      PartBounds(cpus, n, i - 1);
      if i < n then i * (|cpus| / n) else |cpus|
  }

  lemma PartIs(cpus: seq<int>, n: nat, i: nat)
    requires i < n
    ensures PartEnd(cpus, n, i) <= PartEnd(cpus, n, i + 1) <= |cpus|
    ensures Part(cpus, n, i) == cpus[PartEnd(cpus, n, i)..PartEnd(cpus, n, i + 1)]
    ensures i < n - 1 ==> |Part(cpus, n, i)| == |cpus| / n
    ensures i == n - 1 ==> |Part(cpus, n, i)| == |cpus| / n + |cpus| % n
  {
    var per := |cpus| / n;
    PartBounds(cpus, n, i);
    MulStep(i, per);
    assert |cpus| == n * per + |cpus| % n;
  }

  lemma {:induction false} PartEndMonotone(cpus: seq<int>, n: nat, i: nat, j: nat)
    requires i <= j <= n && 0 < n
    ensures PartEnd(cpus, n, i) <= PartEnd(cpus, n, j)
    decreases j
  {
    if i < j {
      PartEndMonotone(cpus, n, i, j - 1);
      PartIs(cpus, n, j - 1);
    }
  }

  /** Different parts of a list without duplicates share nothing. */
  lemma PartsDisjoint(cpus: seq<int>, n: nat, i: nat, j: nat, x: int)
    requires NoDuplicates(cpus) && i < j < n
    ensures !(x in Part(cpus, n, i) && x in Part(cpus, n, j))
  {
    PartIs(cpus, n, i);
    PartIs(cpus, n, j);
    PartEndMonotone(cpus, n, i + 1, j);
  }

  /** Every element of the list is in some part. */
  lemma {:induction false} PartsCover(cpus: seq<int>, n: nat, k: nat, p: nat) returns (i: nat)
    requires k <= n && 0 < n && p < PartEnd(cpus, n, k) <= |cpus|
    ensures i < k && cpus[p] in Part(cpus, n, i)
  {
    PartIs(cpus, n, k - 1);
    if PartEnd(cpus, n, k - 1) <= p {
      i := k - 1;
      assert Part(cpus, n, i)[p - PartEnd(cpus, n, i)] == cpus[p];
    } else {
      i := PartsCover(cpus, n, k - 1, p);
    }
  }

  lemma {:induction false} GroupIs(npus: seq<int>, pools: seq<seq<int>>, pool: seq<int>)
    requires |npus| == |pools| && NoDuplicates(npus)
    ensures NoDuplicates(GroupOf(npus, pools, pool))
    ensures forall k :: 0 <= k < |npus| ==> (npus[k] in GroupOf(npus, pools, pool) <==> pools[k] == pool)
  {
    if npus != [] {
      var n := |npus| - 1;
      GroupIs(npus[..n], pools[..n], pool);
      assert npus[n] !in npus[..n];
      assert forall k :: 0 <= k < n ==> npus[..n][k] == npus[k] && pools[..n][k] == pools[k];
    }
  }

  lemma {:induction false} SharingPrefix(pools: seq<seq<int>>, pool: seq<int>, n: nat, k: nat)
    requires k <= n <= |pools|
    ensures Sharing(pools[..n], pool, k) == Sharing(pools, pool, k)
  {
    if k > 0 { SharingPrefix(pools, pool, n, k - 1); }
  }

  lemma {:induction false} SharingMonotone(pools: seq<seq<int>>, pool: seq<int>, j: nat, k: nat)
    requires j <= k <= |pools|
    ensures Sharing(pools, pool, j) <= Sharing(pools, pool, k)
    ensures j < k && pools[j] == pool ==> Sharing(pools, pool, j) < Sharing(pools, pool, k)
    decreases k
  {
    if j < k { SharingMonotone(pools, pool, j, k - 1); }
  }

  /** A group lists its NPUs in the order of the candidates. */
  lemma {:induction false} GroupInOrder(npus: seq<int>, pools: seq<seq<int>>, pool: seq<int>, k: nat)
    requires |npus| == |pools| && k < |npus| && pools[k] == pool
    ensures |GroupOf(npus, pools, pool)| == Sharing(pools, pool, |pools|)
    ensures Sharing(pools, pool, k) < |GroupOf(npus, pools, pool)|
    ensures GroupOf(npus, pools, pool)[Sharing(pools, pool, k)] == npus[k]
  {
    var n := |npus| - 1;
    GroupLength(npus, pools, pool);
    SharingMonotone(pools, pool, k, |pools|);
    SharingPrefix(pools, pool, n, k);
    GroupLength(npus[..n], pools[..n], pool);
    SharingPrefix(pools, pool, n, n);
    if k < n { GroupInOrder(npus[..n], pools[..n], pool, k); }
  }

  lemma {:induction false} GroupLength(npus: seq<int>, pools: seq<seq<int>>, pool: seq<int>)
    requires |npus| == |pools|
    ensures |GroupOf(npus, pools, pool)| == Sharing(pools, pool, |pools|)
  {
    if npus != [] {
      var n := |npus| - 1;
      GroupLength(npus[..n], pools[..n], pool);
      SharingPrefix(pools, pool, n, n);
    }
  }

  lemma IndexOfIs(xs: seq<int>, i: nat)
    requires NoDuplicates(xs) && i < |xs|
    ensures IndexOf(xs, xs[i]) == i
  {
  }

  /** An NPU gets the part of its pool that its place among the candidates with that pool says. */
  lemma BoundPoolIsPart(npus: seq<int>, pools: seq<seq<int>>, k: nat)
    requires |npus| == |pools| && NoDuplicates(npus) && k < |npus|
    ensures var pool := pools[k];
            var n, i := Sharing(pools, pool, |pools|), Sharing(pools, pool, k);
            i < n && BoundPool(npus, pools, npus[k]) == if n == 1 then pool else Part(Sorted(pool), n, i)
  {
    hide GroupOf, Sharing, NoDuplicates, Part, Sorted, IndexOf;
    var pool := pools[k];
    var group, i := GroupOf(npus, pools, pool), Sharing(pools, pool, k);
    IndexOfIs(npus, k);
    InOwnGroup(npus, pools, k);
    GroupInOrder(npus, pools, pool, k);
    GroupIs(npus, pools, pool);
    IndexOfIs(group, i);
  }

  lemma PartIsSlice(cpus: seq<int>, n: nat, i: nat)
    requires i < n
    ensures var per := |cpus| / n;
            && 0 <= i * per <= (i + 1) * per <= |cpus|
            && Part(cpus, n, i) == cpus[i * per..if i + 1 < n then (i + 1) * per else |cpus|]
  {
    PartBounds(cpus, n, i);
  }

  /**
   Which part an NPU gets, without groups: with `n` candidates that have its pool and `i` of them before it,
   the CPUs from `i * (|pool| / n)` on of the sorted pool, `|pool| / n` of them or, for the last, the rest.
   */
  lemma BoundPoolIs(npus: seq<int>, pools: seq<seq<int>>, k: nat)
    requires |npus| == |pools| && NoDuplicates(npus) && k < |npus|
    ensures var pool := pools[k];
            var n, i := Sharing(pools, pool, |pools|), Sharing(pools, pool, k);
            && i < n
            && var per := |pool| / n;
               && |Sorted(pool)| == |pool| && 0 <= i * per <= (i + 1) * per <= |pool|
               && BoundPool(npus, pools, npus[k])
                  == if n == 1 then pool else Sorted(pool)[i * per..if i + 1 < n then (i + 1) * per else |pool|]
  {
    hide BoundPool, Sharing, NoDuplicates, Part, Sorted;
    var pool := pools[k];
    BoundPoolIsPart(npus, pools, k);
    SortedIs(pool);
    PartIsSlice(Sorted(pool), Sharing(pools, pool, |pools|), Sharing(pools, pool, k));
  }

  /** `cpus` is the part of pool number `k` that belongs to its place among the equal pools. */
  predicate IsShare(pools: seq<seq<int>>, k: nat, cpus: seq<int>) {
    && k < |pools|
    && var pool := pools[k];
       var n, i := Sharing(pools, pool, |pools|), Sharing(pools, pool, k);
       && i < n && |Sorted(pool)| == |pool|
       && var per := |pool| / n;
          && 0 <= i * per <= (i + 1) * per <= |pool|
          && cpus == if n == 1 then pool else Sorted(pool)[i * per..if i + 1 < n then (i + 1) * per else |pool|]
  }

  /** What a successful worker binds a visible NPU to, without groups. */
  lemma WorkerPoolIs(m: Machine, numa: map<int, seq<int>>, visible: seq<int>, k: nat)
    requires |numa| > 0 && NoDuplicates(m.allNpus) && TopoPools(m, numa, visible).Ok?
    requires k < |Candidates(m, visible)| && Candidates(m, visible)[k] in visible
    ensures var npus := Candidates(m, visible);
            && Pools(m, numa, npus).Ok?
            && IsShare(Pools(m, numa, npus).value.0, k, TopoPools(m, numa, visible).value[npus[k]])
  {
    FilterNoDuplicates(m.allNpus, IsCandidate(m, visible));
    var npus := Candidates(m, visible);
    assert NoDuplicates(npus);
    hide BoundPool, Sharing, NoDuplicates, Pools, Sorted, Candidates;
    BoundPoolIs(npus, Pools(m, numa, npus).value.0, k);
  }

  lemma PartsInOrder(cpus: seq<int>, n: nat, i: nat, j: nat, a: int, b: int)
    requires StrictlyAscending(cpus) && i < j < n && a in Part(cpus, n, i) && b in Part(cpus, n, j)
    ensures a < b
  {
    PartIs(cpus, n, i);
    PartIs(cpus, n, j);
    PartEndMonotone(cpus, n, i + 1, j);
  }

  /** Of two NPUs that share a pool, the one that comes first in the list gets the lower CPUs. */
  lemma SharedPoolInOrder(npus: seq<int>, pools: seq<seq<int>>, j: nat, k: nat, a: int, b: int)
    requires |npus| == |pools| && NoDuplicates(npus) && j < k < |npus|
    requires pools[j] == pools[k] && NoDuplicates(pools[j])
    requires a in BoundPool(npus, pools, npus[j]) && b in BoundPool(npus, pools, npus[k])
    ensures a < b
  {
    hide BoundPool, Sharing, NoDuplicates, Part, Sorted;
    var pool := pools[j];
    SharingMonotone(pools, pool, j, k);
    BoundPoolIsPart(npus, pools, j);
    BoundPoolIsPart(npus, pools, k);
    SortedStrict(pool);
    PartsInOrder(Sorted(pool), Sharing(pools, pool, |pools|), Sharing(pools, pool, j), Sharing(pools, pool, k), a, b);
  }

  /** Two NPUs with equal extended pools get disjoint CPUs. */
  lemma SharedPoolDisjoint(npus: seq<int>, pools: seq<seq<int>>, a: int, b: int, cpu: int)
    requires |npus| == |pools| && NoDuplicates(npus) && a in npus && b in npus && a != b
    requires PoolOf(npus, pools, a) == PoolOf(npus, pools, b) && NoDuplicates(PoolOf(npus, pools, a))
    ensures !(cpu in BoundPool(npus, pools, a) && cpu in BoundPool(npus, pools, b))
  {
    var pool := PoolOf(npus, pools, a);
    var group := GroupOf(npus, pools, pool);
    InOwnGroup(npus, pools, IndexOf(npus, a));
    InOwnGroup(npus, pools, IndexOf(npus, b));
    var i, j := IndexOf(group, a), IndexOf(group, b);
    SortedStrict(pool);
    if i < j { PartsDisjoint(Sorted(pool), |group|, i, j, cpu); }
    if j < i { PartsDisjoint(Sorted(pool), |group|, j, i, cpu); }
  }

  /** Nothing of a shared pool is lost: every CPU of it goes to an NPU that shares it. */
  lemma SharedPoolCovered(npus: seq<int>, pools: seq<seq<int>>, a: int, cpu: int) returns (owner: int)
    requires |npus| == |pools| && NoDuplicates(npus) && a in npus && cpu in PoolOf(npus, pools, a)
    ensures owner in npus && PoolOf(npus, pools, owner) == PoolOf(npus, pools, a)
    ensures cpu in BoundPool(npus, pools, owner)
  {
    var pool := PoolOf(npus, pools, a);
    var group := GroupOf(npus, pools, pool);
    InOwnGroup(npus, pools, IndexOf(npus, a));
    GroupIs(npus, pools, pool);
    if |group| == 1 {
      owner := a;
    } else {
      SortedElements(pool, cpu);
      var p := IndexOf(Sorted(pool), cpu);
      var i := PartsCover(Sorted(pool), |group|, |group|, p);
      owner := group[i];
      assert owner in group && owner in npus;
      var k := IndexOf(npus, owner);
      assert pools[k] == pool;
    }
  }

  /** An NPU gets only CPUs of its extended pool. */
  lemma BoundInPool(npus: seq<int>, pools: seq<seq<int>>, a: int, cpu: int)
    requires |npus| == |pools| && a in npus && cpu in BoundPool(npus, pools, a)
    ensures cpu in PoolOf(npus, pools, a)
  {
    var pool := PoolOf(npus, pools, a);
    var group := GroupOf(npus, pools, pool);
    InOwnGroup(npus, pools, IndexOf(npus, a));
    if |group| != 1 {
      PartIs(Sorted(pool), |group|, IndexOf(group, a));
      SortedElements(pool, cpu);
    }
  }

  /** Extended pools hold no CPU twice if no affinity list does. */
  lemma {:induction false} PoolsNoDuplicates(m: Machine, numa: map<int, seq<int>>, npus: seq<int>, k: nat)
    requires |numa| > 0 && Pools(m, numa, npus).Ok? && k < |npus|
    requires forall npu :: npu in m.affinity ==> NoDuplicates(m.affinity[npu])
    ensures NoDuplicates(Pools(m, numa, npus).value.0[k])
  {
    if k < |npus| - 1 {
      PoolsNoDuplicates(m, numa, npus[..|npus| - 1], k);
    } else {
      var base := BaseCpus(m, npus[k]);
      FilterNoDuplicates(AffinityOf(m, npus[k]), cpu => cpu in m.allowed);
      ExtendedNoDuplicates(m, Pools(m, numa, npus[..k]).value.1, base);
    }
  }

  lemma ExtendedNoDuplicates(m: Machine, numa: map<int, seq<int>>, cpus: seq<int>)
    requires |numa| > 0 && Extended(m, numa, cpus).Ok? && NoDuplicates(cpus)
    ensures NoDuplicates(Extended(m, numa, cpus).value.0)
  {
    if cpus != [] && OneNode(m, cpus) {
      var next := (m.cpuNode[cpus[0]] + 1) % |numa|;
      SortedSetIs(cpus + Filter(Looked(numa, next)[next], cpu => cpu in m.allowed));
    }
  }

  /**
   What an extended list holds: the list itself and, if it lies on one node, the allowed CPUs of the next node.
   It is sorted in the second case and unchanged in the first; looking up a missing node inserts it.
   */
  lemma ExtendedContents(m: Machine, numa: map<int, seq<int>>, cpus: seq<int>, x: int)
    requires |numa| > 0 && cpus != [] && Extended(m, numa, cpus).Ok?
    ensures var pool := Extended(m, numa, cpus).value.0;
            && (forall c :: c in cpus ==> c in m.cpuNode)
            && cpus[0] in m.cpuNode
            && var next := (m.cpuNode[cpus[0]] + 1) % |numa|;
               && (x in pool <==> x in cpus || (OneNode(m, cpus) && next in numa && x in numa[next] && x in m.allowed))
               && (if OneNode(m, cpus) then StrictlyAscending(pool) else pool == cpus)
               && Extended(m, numa, cpus).value.1
                  == if OneNode(m, cpus) && next !in numa then numa[next := []] else numa
  {
    var c0 := cpus[0];
    assert c0 in cpus;
    if OneNode(m, cpus) {
      var next := (m.cpuNode[c0] + 1) % |numa|;
      SortedSetIs(cpus + Filter(Looked(numa, next)[next], cpu => cpu in m.allowed));
    }
  }

  /** Every CPU of every extended pool may be used by the process. */
  lemma {:induction false} PoolsWithinCpuset(m: Machine, numa: map<int, seq<int>>, npus: seq<int>, k: nat, cpu: int)
    requires |numa| > 0 && Pools(m, numa, npus).Ok? && k < |npus| && cpu in Pools(m, numa, npus).value.0[k]
    ensures cpu in m.allowed
  {
    if k < |npus| - 1 {
      PoolsWithinCpuset(m, numa, npus[..|npus| - 1], k, cpu);
    } else {
      ExtendedContents(m, Pools(m, numa, npus[..k]).value.1, BaseCpus(m, npus[k]), cpu);
    }
  }

  /** A worker binds its NPUs only to CPUs of its cpuset. */
  lemma BoundWithinCpuset(m: Machine, numa: map<int, seq<int>>, visible: seq<int>, npu: int, cpu: int)
    requires |numa| > 0 && TopoPools(m, numa, visible).Ok? && npu in visible
    requires cpu in TopoPools(m, numa, visible).value[npu]
    ensures cpu in m.allowed
  {
    var npus := Candidates(m, visible);
    var pools := Pools(m, numa, npus).value.0;
    BoundInPool(npus, pools, npu, cpu);
    PoolsWithinCpuset(m, numa, npus, IndexOf(npus, npu), cpu);
  }

  /**
   Across processes: NPUs that two workers bind, and whose extended pools are equal or
   have nothing in common, never share a CPU.
   */
  lemma WorkersDoNotOverlap(m: Machine, numa: map<int, seq<int>>, visible: seq<int>, visible': seq<int>,
                            a: int, b: int, cpu: int)
    requires |numa| > 0 && TopoPools(m, numa, visible).Ok? && TopoPools(m, numa, visible').Ok?
    requires NoDuplicates(m.allNpus) && forall npu :: npu in m.affinity ==> NoDuplicates(m.affinity[npu])
    requires a in visible && b in visible' && a != b
    ensures Candidates(m, visible) == Candidates(m, visible') == Overlapping(m)
    ensures var npus := Overlapping(m);
            && Pools(m, numa, npus).Ok? && a in npus && b in npus
            && var pools := Pools(m, numa, npus).value.0;
               var p, q := PoolOf(npus, pools, a), PoolOf(npus, pools, b);
               (p == q || !(cpu in p && cpu in q)) ==>
                 !(cpu in TopoPools(m, numa, visible).value[a] && cpu in TopoPools(m, numa, visible').value[b])
  {
    CandidatesOfSuccess(m, numa, visible);
    CandidatesOfSuccess(m, numa, visible');
    var npus := Overlapping(m);
    var pools := Pools(m, numa, npus).value.0;
    FilterNoDuplicates(m.allNpus, IsOverlapping(m));
    if PoolOf(npus, pools, a) == PoolOf(npus, pools, b) {
      PoolsNoDuplicates(m, numa, npus, IndexOf(npus, a));
      SharedPoolDisjoint(npus, pools, a, b, cpu);
    } else {
      if cpu in BoundPool(npus, pools, a) { BoundInPool(npus, pools, a, cpu); }
      if cpu in BoundPool(npus, pools, b) { BoundInPool(npus, pools, b, cpu); }
    }
  }

  // ----- exactly when workers never share a CPU

  /** No two NPUs end up with a common CPU. */
  ghost predicate NothingShared(npus: seq<int>, pools: seq<seq<int>>)
    requires |npus| == |pools|
  {
    forall a, b, cpu :: a in npus && b in npus && cpu in BoundPool(npus, pools, a) && cpu in BoundPool(npus, pools, b) ==>
      a == b
  }

  /** Extended pools with a common CPU are equal. */
  ghost predicate PoolsMatch(npus: seq<int>, pools: seq<seq<int>>)
    requires |npus| == |pools|
  {
    forall a, b, cpu :: a in npus && b in npus && cpu in PoolOf(npus, pools, a) && cpu in PoolOf(npus, pools, b) ==>
      PoolOf(npus, pools, a) == PoolOf(npus, pools, b)
  }

  lemma NothingSharedIff(npus: seq<int>, pools: seq<seq<int>>)
    requires |npus| == |pools| && NoDuplicates(npus)
    requires forall k :: 0 <= k < |pools| ==> NoDuplicates(pools[k])
    ensures NothingShared(npus, pools) <==> PoolsMatch(npus, pools)
  {
    hide BoundPool, PoolOf;
    if NothingShared(npus, pools) {
      forall a, b, cpu | a in npus && b in npus && cpu in PoolOf(npus, pools, a) && cpu in PoolOf(npus, pools, b)
        ensures PoolOf(npus, pools, a) == PoolOf(npus, pools, b)
      {
        var a' := SharedPoolCovered(npus, pools, a, cpu);
        var b' := SharedPoolCovered(npus, pools, b, cpu);
        assert a' == b';
      }
    }
    if PoolsMatch(npus, pools) {
      forall a, b, cpu | a in npus && b in npus && cpu in BoundPool(npus, pools, a) && cpu in BoundPool(npus, pools, b)
        ensures a == b
      {
        BoundInPool(npus, pools, a, cpu);
        BoundInPool(npus, pools, b, cpu);
        PoolIsListed(npus, pools, a);
        if a != b { SharedPoolDisjoint(npus, pools, a, b, cpu); }
      }
    }
  }

  lemma PoolIsListed(npus: seq<int>, pools: seq<seq<int>>, a: int)
    requires |npus| == |pools| && a in npus && forall k :: 0 <= k < |pools| ==> NoDuplicates(pools[k])
    ensures NoDuplicates(PoolOf(npus, pools, a))
  {
  }

  /** A worker that sees the NPUs `visible` succeeds and binds `npu` to `cpu`. */
  ghost predicate Binds(m: Machine, numa: map<int, seq<int>>, visible: seq<int>, npu: int, cpu: int)
    requires |numa| > 0
  {
    TopoPools(m, numa, visible).Ok? && npu in visible && cpu in TopoPools(m, numa, visible).value[npu]
  }

  /** No two successful workers, whatever they see, bind different NPUs to one CPU. */
  ghost predicate WorkersNeverOverlap(m: Machine, numa: map<int, seq<int>>)
    requires |numa| > 0
  {
    forall visible, visible', a, b, cpu :: Binds(m, numa, visible, a, cpu) && Binds(m, numa, visible', b, cpu) ==> a == b
  }

  /** What a worker binds is what the pools of the overlapping NPUs say. */
  lemma BindsIs(m: Machine, numa: map<int, seq<int>>, visible: seq<int>, npu: int, cpu: int)
    requires |numa| > 0 && Binds(m, numa, visible, npu, cpu)
    ensures var npus := Overlapping(m);
            && Pools(m, numa, npus).Ok? && npu in npus
            && cpu in BoundPool(npus, Pools(m, numa, npus).value.0, npu)
  {
    CandidatesOfSuccess(m, numa, visible);
    hide Pools, Candidates, BoundPool;
  }

  /** If the pools can be built, a worker that sees only one of the NPUs succeeds. */
  lemma LoneWorker(m: Machine, numa: map<int, seq<int>>, npu: int, cpu: int)
    requires |numa| > 0 && Pools(m, numa, Overlapping(m)).Ok? && npu in Overlapping(m)
    requires cpu in BoundPool(Overlapping(m), Pools(m, numa, Overlapping(m)).value.0, npu)
    ensures Binds(m, numa, [npu], npu, cpu)
  {
    FilterAgree(m.allNpus, IsCandidate(m, [npu]), IsOverlapping(m));
    hide Pools, BoundPool;
  }

  lemma NeverOverlapIs(m: Machine, numa: map<int, seq<int>>)
    requires |numa| > 0 && Pools(m, numa, Overlapping(m)).Ok?
    ensures WorkersNeverOverlap(m, numa) <==> NothingShared(Overlapping(m), Pools(m, numa, Overlapping(m)).value.0)
  {
    hide Pools, BoundPool, Binds, Overlapping;
    var npus := Overlapping(m);
    var pools := Pools(m, numa, npus).value.0;
    if WorkersNeverOverlap(m, numa) {
      forall a, b, cpu | a in npus && b in npus && cpu in BoundPool(npus, pools, a) && cpu in BoundPool(npus, pools, b)
        ensures a == b
      {
        LoneWorker(m, numa, a, cpu);
        LoneWorker(m, numa, b, cpu);
      }
    }
    if NothingShared(npus, pools) {
      forall visible, visible', a, b, cpu | Binds(m, numa, visible, a, cpu) && Binds(m, numa, visible', b, cpu)
        ensures a == b
      {
        BindsIs(m, numa, visible, a, cpu);
        BindsIs(m, numa, visible', b, cpu);
      }
    }
  }

  lemma NoWorkerSucceeds(m: Machine, numa: map<int, seq<int>>)
    requires |numa| > 0 && Pools(m, numa, Overlapping(m)).Err?
    ensures WorkersNeverOverlap(m, numa)
  {
    hide Pools, BoundPool, Binds, Overlapping;
    forall visible, a, cpu
      ensures !Binds(m, numa, visible, a, cpu)
    {
      if Binds(m, numa, visible, a, cpu) { BindsIs(m, numa, visible, a, cpu); }
    }
  }

  /**
   The exact condition, over all workers of a machine: they never bind different NPUs to one CPU if and only if
   among the NPUs whose affinity meets the cpuset, extended pools with a common CPU are equal.
   */
  lemma WorkersNeverOverlapIff(m: Machine, numa: map<int, seq<int>>)
    requires |numa| > 0 && NoDuplicates(m.allNpus)
    requires forall npu :: npu in m.affinity ==> NoDuplicates(m.affinity[npu])
    ensures var npus := Overlapping(m);
            WorkersNeverOverlap(m, numa) <==> (Pools(m, numa, npus).Ok? ==> PoolsMatch(npus, Pools(m, numa, npus).value.0))
  {
    hide Pools, NothingShared, WorkersNeverOverlap, PoolsMatch;
    var npus := Overlapping(m);
    if Pools(m, numa, npus).Ok? {
      FilterNoDuplicates(m.allNpus, IsOverlapping(m));
      forall k | 0 <= k < |npus|
        ensures NoDuplicates(Pools(m, numa, npus).value.0[k])
      {
        PoolsNoDuplicates(m, numa, npus, k);
      }
      NothingSharedIff(npus, Pools(m, numa, npus).value.0);
      NeverOverlapIs(m, numa);
    } else {
      NoWorkerSucceeds(m, numa);
    }
  }

  // ----- pools that overlap

  /** Two NPUs whose affinity lists share CPU 1; each list lies on two nodes, so neither is extended. */
  const SHARED := Machine([0, 1, 2], map[0 := [0, 1], 1 := [1, 2]], [0, 1], map[0 := 0, 1 := 1, 2 := 0])
  const SHARED_NUMA := map[0 := [0, 2], 1 := [1]]

  lemma {:induction false} FilterAll(xs: seq<int>, keep: int -> bool)
    requires forall x :: x in xs ==> keep(x)
    ensures Filter(xs, keep) == xs
  {
    if xs != [] {
      var y := xs[|xs| - 1];
      assert y in xs && xs == xs[..|xs| - 1] + [y];
      FilterAll(xs[..|xs| - 1], keep);
    }
  }

  lemma PoolsStep(m: Machine, numa: map<int, seq<int>>, npus: seq<int>, npu: int)
    requires |numa| > 0 && Pools(m, numa, npus).Ok? && BaseCpus(m, npu) != []
    requires Extended(m, Pools(m, numa, npus).value.1, BaseCpus(m, npu)).Ok?
    ensures var (pools, numa1) := Pools(m, numa, npus).value;
            var (pool, numa2) := Extended(m, numa1, BaseCpus(m, npu)).value;
            Pools(m, numa, npus + [npu]) == Ok((pools + [pool], numa2))
  {
    hide Extended, BaseCpus;
    assert (npus + [npu])[..|npus|] == npus;
  }

  lemma SharedBase(npu: int)
    requires npu == 0 || npu == 1
    ensures BaseCpus(SHARED, npu) == [npu, npu + 1]
  {
    FilterAll([npu, npu + 1], cpu => cpu in SHARED.allowed);
  }

  /** A list that lies on two nodes is not extended. */
  lemma TwoNodesStay(m: Machine, numa: map<int, seq<int>>, a: int, b: int)
    requires |numa| > 0 && a in m.cpuNode && b in m.cpuNode && m.cpuNode[a] != m.cpuNode[b]
    ensures Extended(m, numa, [a, b]) == Ok(([a, b], numa))
  {
    assert b in [a, b];
  }

  lemma SharedPools()
    ensures |SHARED_NUMA| > 0
    ensures Pools(SHARED, SHARED_NUMA, [0, 1]) == Ok(([[0, 1], [1, 2]], SHARED_NUMA))
  {
    assert 0 in SHARED_NUMA;
    TwoNodesStay(SHARED, SHARED_NUMA, 0, 1);
    TwoNodesStay(SHARED, SHARED_NUMA, 1, 2);
    SharedBase(0);
    SharedBase(1);
    assert Pools(SHARED, SHARED_NUMA, []) == Ok(([], SHARED_NUMA));
    hide Pools, Extended, BaseCpus;
    PoolsStep(SHARED, SHARED_NUMA, [], 0);
    assert [] + [0] == [0] && [] + [[0, 1]] == [[0, 1]];
    PoolsStep(SHARED, SHARED_NUMA, [0], 1);
    assert [0] + [1] == [0, 1] && [[0, 1]] + [[1, 2]] == [[0, 1], [1, 2]];
  }

  lemma SharedCandidates(visible: seq<int>)
    ensures Candidates(SHARED, visible) == [0, 1]
  {
    assert 1 in AffinityOf(SHARED, 0) && 1 in AffinityOf(SHARED, 1) && 1 in SHARED.allowed;
    assert Overlaps(SHARED, 0) && Overlaps(SHARED, 1);
    FilterAll(SHARED.allNpus, IsCandidate(SHARED, visible));
  }

  lemma SharedWorker(npu: int)
    requires npu == 0 || npu == 1
    ensures |SHARED_NUMA| > 0
    ensures var r := TopoPools(SHARED, SHARED_NUMA, [npu]);
            r.Ok? && npu in r.value && r.value[npu] == [npu, npu + 1]
  {
    hide Pools, Candidates, BoundPool;
    SharedPools();
    SharedCandidates([npu]);
    TwoPools(0, 1, [0, 1], [1, 2]);
    assert npu in [0, 1];
    assert BoundPool([0, 1], [[0, 1], [1, 2]], npu) == [npu, npu + 1];
  }

  /** Different pools are not divided: workers that see one NPU each both bind CPU 1. */
  lemma WorkersCanOverlap()
    ensures |SHARED_NUMA| > 0 && Binds(SHARED, SHARED_NUMA, [0], 0, 1) && Binds(SHARED, SHARED_NUMA, [1], 1, 1)
    ensures !WorkersNeverOverlap(SHARED, SHARED_NUMA)
  {
    hide TopoPools;
    SharedWorker(0);
    SharedWorker(1);
  }

  /** Two NPUs with different pools keep them undivided. */
  lemma TwoPools(a: int, b: int, p: seq<int>, q: seq<int>)
    requires a != b && p != q
    ensures BoundPool([a, b], [p, q], a) == p && BoundPool([a, b], [p, q], b) == q
  {
    var npus, pools := [a, b], [p, q];
    assert npus[..1] == [a] && pools[..1] == [p] && [a][..0] == [] && [p][..0] == [];
    assert GroupOf([a], [p], p) == [a] && GroupOf([a], [p], q) == [];
    assert GroupOf(npus, pools, p) == [a] && GroupOf(npus, pools, q) == [b];
    hide GroupOf;
    assert IndexOf(npus, a) == 0 && IndexOf(npus, b) == 1;
  }

  // ----- global slicing

  /** How many CPUs come before the slice of an NPU id: the first ids take one CPU more. */
  function SliceStart(cpus: nat, total: nat, id: nat): (r: nat)
    requires 0 < total
  {
    var base := cpus / total;
    assert 0 <= base by { if base < 0 { MulMonotone(base, -1, total); } }
    MulMonotone(0, id, base);
    id * base + (if id < cpus % total then id else cpus % total)
  }

  /** The slices lie end to end, from the first CPU to the last, and differ in size by at most one. */
  lemma SliceStep(cpus: nat, total: nat, id: nat)
    requires id < total
    ensures SliceStart(cpus, total, 0) == 0 && SliceStart(cpus, total, total) == cpus
    ensures var take := SliceStart(cpus, total, id + 1) - SliceStart(cpus, total, id);
            take == cpus / total + (if id < cpus % total then 1 else 0)
  {
    MulStep(id, cpus / total);
    assert cpus == total * (cpus / total) + cpus % total;
  }

  lemma {:induction false} SliceMonotone(cpus: nat, total: nat, i: nat, j: nat)
    requires i <= j <= total && 0 < total
    ensures SliceStart(cpus, total, i) <= SliceStart(cpus, total, j)
    decreases j
  {
    if i < j {
      SliceMonotone(cpus, total, i, j - 1);
      SliceStep(cpus, total, j - 1);
      assert 0 <= cpus / total by { if cpus / total < 0 { MulMonotone(cpus / total, -1, total); } }
    }
  }

  /** The CPUs of an NPU id in global slicing. */
  function SliceFor(allowed: seq<int>, total: nat, id: nat): (r: seq<int>)
    requires id < total
    ensures |r| == |allowed| / total || |r| == |allowed| / total + 1
  {
    SliceStep(|allowed|, total, id);
    SliceMonotone(|allowed|, total, id, id + 1);
    SliceMonotone(|allowed|, total, id + 1, total);
    allowed[SliceStart(|allowed|, total, id)..SliceStart(|allowed|, total, id + 1)]
  }

  /** The slices of the first `k` ids, end to end. */
  function Slices(allowed: seq<int>, total: nat, k: nat): seq<int>
    requires k <= total
  {
    if k == 0 then [] else Slices(allowed, total, k - 1) + SliceFor(allowed, total, k - 1)
  }

  /** Put end to end, the slices of all NPU ids are the allowed CPUs. */
  lemma {:induction false} SlicesTile(allowed: seq<int>, total: nat, k: nat)
    requires k <= total && 0 < total
    ensures SliceStart(|allowed|, total, k) <= |allowed|
    ensures Slices(allowed, total, k) == allowed[..SliceStart(|allowed|, total, k)]
    ensures k == total ==> Slices(allowed, total, k) == allowed
  {
    SliceMonotone(|allowed|, total, k, total);
    SliceStep(|allowed|, total, 0);
    if k > 0 {
      SlicesTile(allowed, total, k - 1);
      SliceMonotone(|allowed|, total, k - 1, k);
    }
  }

  // ----- roles

  datatype Role = Irq | Main | Acl | Release

  /** The CPUs of a pool that have a role: the first two, the middle, the last but one, the last. */
  function RoleCpus(pool: seq<int>, role: Role): seq<int>
    requires MIN_CPUS_PER_NPU <= |pool|
  {
    match role
    case Irq => pool[..2]
    case Main => pool[2..|pool| - 2]
    case Acl => [pool[|pool| - 2]]
    case Release => [pool[|pool| - 1]]
  }

  /** Put end to end, two IRQ CPUs, the main CPUs, one ACL CPU and one release CPU are the pool. */
  lemma RolesInOrder(pool: seq<int>)
    requires MIN_CPUS_PER_NPU <= |pool|
    ensures pool == RoleCpus(pool, Irq) + RoleCpus(pool, Main) + RoleCpus(pool, Acl) + RoleCpus(pool, Release)
    ensures |RoleCpus(pool, Irq)| == 2 && |RoleCpus(pool, Main)| == |pool| - 4
    ensures |RoleCpus(pool, Acl)| == 1 && |RoleCpus(pool, Release)| == 1
  {
  }

  /** Within one pool no CPU has two roles, and every CPU has one. */
  lemma RolesPartition(pool: seq<int>, cpu: int)
    requires MIN_CPUS_PER_NPU <= |pool| && NoDuplicates(pool)
    ensures forall r, r' :: cpu in RoleCpus(pool, r) && cpu in RoleCpus(pool, r') ==> r == r'
    ensures cpu in pool <==> exists r :: cpu in RoleCpus(pool, r)
  {
    RolesInOrder(pool);
  }

  lemma SliceNoDuplicates(cpus: seq<int>, total: nat, id: nat)
    requires NoDuplicates(cpus) && id < total
    ensures NoDuplicates(SliceFor(cpus, total, id))
  {
    SliceMonotone(|cpus|, total, id, id + 1);
    SliceMonotone(|cpus|, total, id + 1, total);
    SliceStep(|cpus|, total, id);
  }

  /** One CPU never has roles for two NPUs, nor two roles for one. */
  lemma SliceRolesUnique(cpus: seq<int>, total: nat, a: nat, b: nat, cpu: int, r: Role, r': Role)
    requires NoDuplicates(cpus) && a < total && b < total && MIN_CPUS_PER_NPU <= |cpus| / total
    requires cpu in RoleCpus(SliceFor(cpus, total, a), r) && cpu in RoleCpus(SliceFor(cpus, total, b), r')
    ensures a == b && r == r'
  {
    var p, q := SliceFor(cpus, total, a), SliceFor(cpus, total, b);
    SliceNoDuplicates(cpus, total, a);
    SliceNoDuplicates(cpus, total, b);
    RolesPartition(p, cpu);
    RolesPartition(q, cpu);
    hide SliceFor;
    if a < b { SlicesDisjoint(cpus, total, a, b, cpu); }
    if b < a { SlicesDisjoint(cpus, total, b, a, cpu); }
  }

  /**
   Processes that share a cpuset and an NPU count, in whatever order they list the CPUs, never
   give one CPU to two NPUs or two roles.
   */
  lemma GlobalRolesUnique(allowed: seq<int>, allowed': seq<int>, total: nat, a: nat, b: nat, cpu: int, r: Role, r': Role)
    requires forall x :: x in allowed <==> x in allowed'
    requires a < total && b < total && MIN_CPUS_PER_NPU <= |SortedSet(allowed)| / total
    ensures SortedSet(allowed) == SortedSet(allowed')
    ensures var cpus, cpus' := SortedSet(allowed), SortedSet(allowed');
            (cpu in RoleCpus(SliceFor(cpus, total, a), r) && cpu in RoleCpus(SliceFor(cpus', total, b), r')) ==>
              a == b && r == r'
  {
    SortedSetIs(allowed);
    SortedSetIs(allowed');
    StrictlyAscendingUnique(SortedSet(allowed), SortedSet(allowed'));
    var cpus := SortedSet(allowed);
    if cpu in RoleCpus(SliceFor(cpus, total, a), r) && cpu in RoleCpus(SliceFor(cpus, total, b), r') {
      SliceRolesUnique(cpus, total, a, b, cpu, r, r');
    }
  }

  lemma SlicesDisjoint(cpus: seq<int>, total: nat, a: nat, b: nat, cpu: int)
    requires NoDuplicates(cpus) && a < b < total
    ensures !(cpu in SliceFor(cpus, total, a) && cpu in SliceFor(cpus, total, b))
  {
    SliceMonotone(|cpus|, total, a + 1, b);
    SliceMonotone(|cpus|, total, b + 1, total);
    SliceStep(|cpus|, total, b);
    SliceMonotone(|cpus|, total, a, a + 1);
    SliceMonotone(|cpus|, total, b, b + 1);
  }
}
