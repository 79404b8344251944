/** The CPU allocator object of one worker process. */
module CpuAllocator {
  import opened Arith
  import opened Lists
  import opened CpuBinding

  /** Two tables agree on a key. */
  predicate SameAt(t: map<int, seq<int>>, t': map<int, seq<int>>, key: int) {
    (key in t <==> key in t') && (key in t && key in t' ==> t[key] == t'[key])
  }

  /** The three thread roles of an NPU are those of its pool; before them come the two CPUs for interrupts. */
  predicate HasRoles(pool: seq<int>, main: map<int, seq<int>>, acl: map<int, seq<int>>, rel: map<int, seq<int>>, npu: int) {
    && MIN_CPUS_PER_NPU <= |pool|
    && npu in main && npu in acl && npu in rel
    && |acl[npu]| == |rel[npu]| == 1 && pool == pool[..2] + main[npu] + acl[npu] + rel[npu]
  }

  /** The three lists of an NPU as indices of its pool. */
  predicate AtIndices(pool: seq<int>, main: map<int, seq<int>>, acl: map<int, seq<int>>, rel: map<int, seq<int>>, npu: int) {
    && MIN_CPUS_PER_NPU <= |pool|
    && npu in main && main[npu] == pool[2..|pool| - 2]
    && npu in acl && acl[npu] == [pool[|pool| - 2]]
    && npu in rel && rel[npu] == [pool[|pool| - 1]]
  }

  lemma RolesAreIndices(pool: seq<int>, main: map<int, seq<int>>, acl: map<int, seq<int>>, rel: map<int, seq<int>>, npu: int)
    requires HasRoles(pool, main, acl, rel, npu)
    ensures AtIndices(pool, main, acl, rel, npu)
  {
    var joined := pool[..2] + main[npu] + acl[npu] + rel[npu];
    assert main[npu] == joined[2..|joined| - 2] && acl[npu] == joined[|joined| - 2..|joined| - 1];
    assert rel[npu] == joined[|joined| - 1..];
  }

  predicate AllBelow(npus: seq<int>, total: nat) {
    forall npu :: npu in npus ==> 0 <= npu < total
  }

  class CpuAlloc {
    const allowed: seq<int>
    const running: seq<int>
    const affinity: map<int, seq<int>>
    const allNpus: seq<int>
    var cpuNode: map<int, int>
    var numaToCpu: map<int, seq<int>>
    var npuCpuPool: map<int, seq<int>>
    var assignMain: map<int, seq<int>>
    var assignAcl: map<int, seq<int>>
    var assignRel: map<int, seq<int>>

    /** The CPU-to-node map and the NUMA table are what the system reports. */
    constructor (allowed: seq<int>, running: seq<int>, affinity: map<int, seq<int>>, allNpus: seq<int>,
                 cpuNode: map<int, int>, numaToCpu: map<int, seq<int>>)
      ensures this.allowed == allowed && this.running == running && this.affinity == affinity
      ensures this.allNpus == allNpus && this.cpuNode == cpuNode && this.numaToCpu == numaToCpu
      ensures npuCpuPool == assignMain == assignAcl == assignRel == map[]
    {
      this.allowed, this.running, this.affinity, this.allNpus := allowed, running, affinity, allNpus;
      this.cpuNode, this.numaToCpu := cpuNode, numaToCpu;
      npuCpuPool, assignMain, assignAcl, assignRel := map[], map[], map[], map[];
    }

    function View(): Machine
      reads this`cpuNode
    {
      Machine(allowed, affinity, allNpus, cpuNode)
    }

    /** `extend_numa`: adds the allowed CPUs of the next NUMA node to a list that lies on one node. */
    method ExtendNuma(cpuList: seq<int>) returns (r: Result<seq<int>>)
      requires |numaToCpu| > 0
      modifies this`numaToCpu
      ensures match Extended(View(), old(numaToCpu), cpuList)
              case Err(e) => r == Err(e) && numaToCpu == old(numaToCpu)
              case Ok((cpus, numa)) => r == Ok(cpus) && numaToCpu == numa
    {
      if cpuList == [] { return Ok([]); }
      if exists c :: c in cpuList && c !in cpuNode { return Err(KeyError); }
      var nodes := set c | c in cpuList :: cpuNode[c];
      OneNodeIs(View(), cpuList, nodes);
      if |nodes| != 1 { return Ok(cpuList); }
      var node :| node in nodes;
      var nextNode := (node + 1) % |numaToCpu|;
      numaToCpu := Looked(numaToCpu, nextNode);
      var extended := WithAllowed(cpuList, numaToCpu[nextNode]);
      return Ok(SortedSet(extended));
    }

    /** The loop of `extend_numa`: appends the allowed CPUs of a node. */
    method WithAllowed(cpuList: seq<int>, cpus: seq<int>) returns (extended: seq<int>)
      ensures extended == cpuList + Filter(cpus, cpu => cpu in allowed)
    {
      extended := cpuList;
      var i := 0;
      while i < |cpus|
        invariant 0 <= i <= |cpus|
        invariant extended == cpuList + Filter(cpus[..i], cpu => cpu in allowed)
      {
        assert cpus[..i + 1][..i] == cpus[..i];
        if cpus[i] in allowed { extended := extended + [cpus[i]]; }
        i := i + 1;
      }
      assert cpus[..|cpus|] == cpus;
    }

    /**
     `build_cpu_pools` in topology mode: exactly the pools of `TopoPools`, or its error.  On success `pools` are the
     extended pools of all candidates, and every visible NPU has its share of its own.  A failed call leaves the
     extended pools `pools` of the candidates before the one that failed, or of all of them.
     */
    method BuildTopoPools() returns (r: Result<()>, ghost pools: seq<seq<int>>)
      requires |numaToCpu| > 0 && NoDuplicates(allNpus) && npuCpuPool == map[]
      modifies this`numaToCpu, this`npuCpuPool
      ensures match TopoPools(View(), old(numaToCpu), running)
              case Err(e) => r == Err(e)
              case Ok(bound) => r == Ok(()) && npuCpuPool == bound
      ensures r.Ok? ==>
                var npus := Candidates(View(), running);
                && |pools| == |npus| && Pools(View(), old(numaToCpu), npus).Ok?
                && Pools(View(), old(numaToCpu), npus).value.0 == pools && npuCpuPool.Keys == set npu | npu in running
                && forall k :: 0 <= k < |npus| && npus[k] in running ==> IsShare(pools, k, npuCpuPool[npus[k]])
      ensures r.Err? ==>
                var npus := Candidates(View(), running);
                && ArePools(View(), old(numaToCpu), npus, pools) && npuCpuPool == Stored(map[], npus, pools)
    {
      var npus := Candidates(View(), running);
      FilterNoDuplicates(allNpus, IsCandidate(View(), running));
      assert NoDuplicates(npus);
      hide Candidates, Pools, VisiblePools, NoDuplicates, ArePools, Stored, IsShare;
      var ps;
      r, ps := ExtendAll(npus);
      pools := ps;
      if r.Err? { return; }
      r := KeepVisible(npus, ps);
    }

    /** Groups and divides the pools and keeps those of the visible NPUs. */
    method KeepVisible(npus: seq<int>, pools: seq<seq<int>>) returns (r: Result<()>)
      requires |npus| == |pools| && NoDuplicates(npus)
      modifies this`npuCpuPool
      ensures match VisiblePools(npus, pools, running)
              case Err(e) => r == Err(e) && npuCpuPool == old(npuCpuPool)
              case Ok(bound) => r == Ok(()) && npuCpuPool == bound
      ensures r.Ok? ==>
                && npuCpuPool.Keys == set npu | npu in running
                && forall k :: 0 <= k < |npus| && npus[k] in running ==> IsShare(pools, k, npuCpuPool[npus[k]])
    {
      hide BoundPool, IsShare, NoDuplicates;
      var final := FinalPools(npus, pools);
      if exists npu :: npu in running && npu !in final { return Err(KeyError); }
      npuCpuPool := map npu | npu in running :: final[npu];
      return Ok(());
    }

    /** The first loop: the extended pool of every candidate, up to the first that fails. */
    method ExtendAll(npus: seq<int>) returns (r: Result<()>, pools: seq<seq<int>>)
      requires |numaToCpu| > 0
      modifies this`numaToCpu, this`npuCpuPool
      ensures match Pools(View(), old(numaToCpu), npus)
              case Err(e) => r == Err(e)
              case Ok((ps, numa)) => r == Ok(()) && pools == ps && numaToCpu == numa
      ensures ArePools(View(), old(numaToCpu), npus, pools) && npuCpuPool == Stored(old(npuCpuPool), npus, pools)
    {
      pools := [];
      r := Ok(());
      var i := 0;
      while i < |npus|
        invariant 0 <= i == |pools| <= |npus| && |numaToCpu| > 0 && r == Ok(())
        invariant Pools(View(), old(numaToCpu), npus[..i]) == Ok((pools, numaToCpu))
        invariant npuCpuPool == Stored(old(npuCpuPool), npus, pools)
      {
        assert npus[..i + 1][..i] == npus[..i];
        var base := BaseCpus(View(), npus[i]);
        if base == [] {
          PoolsErr(View(), old(numaToCpu), npus, i + 1);
          return Err(AffinityConflict), pools;
        }
        var extra := ExtendNuma(base);
        if extra.Err? {
          PoolsErr(View(), old(numaToCpu), npus, i + 1);
          return Err(extra.failure), pools;
        }
        StoredStep(old(npuCpuPool), npus, pools, extra.value);
        pools := pools + [extra.value];
        npuCpuPool := npuCpuPool[npus[i] := extra.value];
        i := i + 1;
      }
      assert npus[..i] == npus;
    }

    /** The number of NPUs on the host: from the mapping, else from the topology, else what is visible. */
    function TotalNpus(): (n: nat)
      ensures 0 < |allNpus| ==> n == |allNpus|
      ensures |allNpus| == 0 < |affinity| ==> n == |affinity|
      ensures |allNpus| == |affinity| == 0 ==> n == |running|
    {
      if |allNpus| > 0 then |allNpus| else if |affinity| > 0 then |affinity| else |running|
    }

    /** `build_global_slice_cpu_pool`: the slice of every visible NPU id, or the error of the first bad one. */
    method BuildGlobalSlicePool() returns (r: Result<()>)
      modifies this`npuCpuPool
      ensures running == [] || allowed == [] ==> r == Ok(()) && npuCpuPool == old(npuCpuPool)
      ensures running != [] && allowed != [] ==>
                var cpus, total := SortedSet(allowed), TotalNpus();
                && 0 < total
                && (r == Err(InsufficientCpus) <==> |cpus| / total < MIN_CPUS_PER_NPU)
                && (r.Ok? <==> MIN_CPUS_PER_NPU <= |cpus| / total && AllBelow(running, total))
                && (r.Ok? ==>
                      npuCpuPool == old(npuCpuPool) + map npu | npu in running && 0 <= npu < total :: SliceFor(cpus, total, npu))
    {
      if running == [] { return Ok(()); }
      var cpus := SortedSet(allowed);
      SortedSetEmpty(allowed);
      if cpus == [] { return Ok(()); }
      var total := TotalNpus();
      var base := |cpus| / total;
      if base < MIN_CPUS_PER_NPU { return Err(InsufficientCpus); }
      hide SortedSet;
      r := SliceVisible(cpus, total);
    }

    /** The loop over the visible NPUs. */
    method SliceVisible(cpus: seq<int>, total: nat) returns (r: Result<()>)
      requires 0 < total
      modifies this`npuCpuPool
      ensures r == if AllBelow(running, total) then Ok(()) else Err(InvalidNpu)
      ensures r.Ok? ==>
                npuCpuPool == old(npuCpuPool) + map npu | npu in running && 0 <= npu < total :: SliceFor(cpus, total, npu)
    {
      hide SliceFor;
      var i := 0;
      while i < |running|
        invariant 0 <= i <= |running| && AllBelow(running[..i], total)
        invariant npuCpuPool == old(npuCpuPool)
                    + map npu | npu in running[..i] && 0 <= npu < total :: SliceFor(cpus, total, npu)
      {
        var npu := running[i];
        assert npu in running && running[..i + 1] == running[..i] + [npu];
        if npu < 0 || npu >= total { return Err(InvalidNpu); }
        npuCpuPool := npuCpuPool[npu := SliceFor(cpus, total, npu)];
        i := i + 1;
      }
      assert running[..i] == running;
      return Ok(());
    }

    /** `allocate`: fails exactly when some pool is too small, else gives every pool's CPUs their roles. */
    method Allocate() returns (r: Result<()>)
      modifies this`assignMain, this`assignAcl, this`assignRel
      ensures r == Ok(()) || r == Err(InsufficientCpus)
      ensures r.Ok? <==> forall npu :: npu in npuCpuPool ==> MIN_CPUS_PER_NPU <= |npuCpuPool[npu]|
      ensures r.Ok? ==> forall npu :: npu in npuCpuPool ==>
                var pool := npuCpuPool[npu];
                && npu in assignMain && assignMain[npu] == pool[2..|pool| - 2]
                && npu in assignAcl && assignAcl[npu] == [pool[|pool| - 2]]
                && npu in assignRel && assignRel[npu] == [pool[|pool| - 1]]
      ensures forall npu ::
                || (SameAt(assignMain, old(assignMain), npu) && SameAt(assignAcl, old(assignAcl), npu)
                    && SameAt(assignRel, old(assignRel), npu))
                || (npu in npuCpuPool && HasRoles(npuCpuPool[npu], assignMain, assignAcl, assignRel, npu))
    {
      var todo := npuCpuPool.Keys;
      while todo != {}
        invariant todo <= npuCpuPool.Keys
        invariant forall npu :: npu in npuCpuPool && npu !in todo ==>
                    HasRoles(npuCpuPool[npu], assignMain, assignAcl, assignRel, npu)
        invariant forall npu :: npu in todo || npu !in npuCpuPool ==>
                    && SameAt(assignMain, old(assignMain), npu) && SameAt(assignAcl, old(assignAcl), npu)
                    && SameAt(assignRel, old(assignRel), npu)
        decreases todo
      {
        ghost var some := SomeElement(todo);
        var npu :| npu in todo;
        var pool := npuCpuPool[npu];
        if |pool| < MIN_CPUS_PER_NPU { return Err(InsufficientCpus); }
        AssignRoles(npu, pool);
        todo := todo - {npu};
      }
      forall npu | npu in npuCpuPool
        ensures AtIndices(npuCpuPool[npu], assignMain, assignAcl, assignRel, npu)
      {
        RolesAreIndices(npuCpuPool[npu], assignMain, assignAcl, assignRel, npu);
      }
      return Ok(());
    }

    /** The roles of one NPU. */
    method AssignRoles(npu: int, pool: seq<int>)
      requires MIN_CPUS_PER_NPU <= |pool|
      modifies this`assignMain, this`assignAcl, this`assignRel
      ensures HasRoles(pool, assignMain, assignAcl, assignRel, npu)
      ensures forall k, p :: k != npu && HasRoles(p, old(assignMain), old(assignAcl), old(assignRel), k) ==>
                HasRoles(p, assignMain, assignAcl, assignRel, k)
      ensures forall k, t :: k != npu && SameAt(old(assignMain), t, k) ==> SameAt(assignMain, t, k)
      ensures forall k, t :: k != npu && SameAt(old(assignAcl), t, k) ==> SameAt(assignAcl, t, k)
      ensures forall k, t :: k != npu && SameAt(old(assignRel), t, k) ==> SameAt(assignRel, t, k)
    {
      assert pool == pool[..2] + pool[2..|pool| - 2] + [pool[|pool| - 2]] + [pool[|pool| - 1]];
      assignMain := assignMain[npu := pool[2..|pool| - 2]];
      assignAcl := assignAcl[npu := [pool[|pool| - 2]]];
      assignRel := assignRel[npu := [pool[|pool| - 1]]];
    }

    /**
     The plan of a process in global-slice mode.  Once slicing succeeds, allocation cannot fail, and
     the three thread roles and the two IRQ CPUs of every visible NPU are those of its slice.
     */
    method PlanGlobally() returns (r: Result<()>)
      requires npuCpuPool == map[] && running != [] && allowed != []
      modifies this`npuCpuPool, this`assignMain, this`assignAcl, this`assignRel
      ensures var cpus, total := SortedSet(allowed), TotalNpus();
              && 0 < total
              && (r.Ok? <==> MIN_CPUS_PER_NPU <= |cpus| / total && AllBelow(running, total))
              && (r.Ok? ==> forall npu :: npu in running ==>
                    && npu in npuCpuPool && npuCpuPool[npu] == SliceFor(cpus, total, npu)
                    && var pool := npuCpuPool[npu];
                       && MIN_CPUS_PER_NPU <= |pool|
                       && npu in assignMain && assignMain[npu] == pool[2..|pool| - 2] == RoleCpus(pool, Main)
                       && npu in assignAcl && assignAcl[npu] == [pool[|pool| - 2]] == RoleCpus(pool, Acl)
                       && npu in assignRel && assignRel[npu] == [pool[|pool| - 1]] == RoleCpus(pool, Release))
    {
      hide SortedSet;
      r := BuildGlobalSlicePool();
      if r.Ok? {
        forall npu | npu in npuCpuPool
          ensures MIN_CPUS_PER_NPU <= |npuCpuPool[npu]|
        {
          assert npuCpuPool[npu] == SliceFor(SortedSet(allowed), TotalNpus(), npu);
        }
        hide SliceFor;
        r := Allocate();
      }
    }
  }

  /** The extended pools of the first NPUs, as many as could be built. */
  ghost predicate ArePools(m: Machine, numa: map<int, seq<int>>, npus: seq<int>, pools: seq<seq<int>>)
    requires |numa| > 0
  {
    && |pools| <= |npus|
    && Pools(m, numa, npus[..|pools|]).Ok? && Pools(m, numa, npus[..|pools|]).value.0 == pools
    && (|pools| < |npus| ==> Pools(m, numa, npus[..|pools| + 1]).Err?)
  }

  /** The pools stored under their NPUs, one after the other. */
  function Stored(table: map<int, seq<int>>, npus: seq<int>, pools: seq<seq<int>>): map<int, seq<int>>
    requires |pools| <= |npus|
  {
    if pools == [] then table
    else
      var n := |pools| - 1;
      Stored(table, npus, pools[..n])[npus[n] := pools[n]]
  }

  lemma StoredStep(table: map<int, seq<int>>, npus: seq<int>, pools: seq<seq<int>>, pool: seq<int>)
    requires |pools| < |npus|
    ensures Stored(table, npus, pools + [pool]) == Stored(table, npus, pools)[npus[|pools|] := pool]
  {
    assert (pools + [pool])[..|pools|] == pools;
  }

  /** An error on a prefix of the NPUs is the error of the whole list. */
  lemma {:induction false} PoolsErr(m: Machine, numa: map<int, seq<int>>, npus: seq<int>, k: nat)
    requires |numa| > 0 && k <= |npus| && Pools(m, numa, npus[..k]).Err?
    ensures Pools(m, numa, npus) == Pools(m, numa, npus[..k])
  {
    if k < |npus| {
      assert npus[..|npus| - 1][..k] == npus[..k];
      PoolsErr(m, numa, npus[..|npus| - 1], k);
    } else {
      assert npus[..k] == npus;
    }
  }

  /** The grouping loop: NPUs with equal pools are listed together, in order. */
  method GroupByPool(npus: seq<int>, pools: seq<seq<int>>) returns (keys: seq<seq<int>>, groups: map<seq<int>, seq<int>>)
    requires |npus| == |pools|
    ensures forall key :: key in groups <==> key in pools
    ensures forall key :: key in keys <==> key in pools
    ensures forall key :: key in groups ==> groups[key] == GroupOf(npus, pools, key)
    ensures forall key :: key in groups ==> |groups[key]| == Sharing(pools, key, |pools|)
    ensures forall k :: 0 <= k < |npus| ==> IsListed(groups, npus, pools, k)
  {
    keys, groups := [], map[];
    var i := 0;
    while i < |npus|
      invariant 0 <= i <= |npus|
      invariant forall key :: key in groups <==> key in pools[..i]
      invariant forall key :: key in keys <==> key in pools[..i]
      invariant forall key :: key in groups ==> groups[key] == GroupOf(npus[..i], pools[..i], key)
    {
      var key := pools[i];
      assert npus[..i + 1][..i] == npus[..i] && pools[..i + 1][..i] == pools[..i];
      assert pools[..i + 1] == pools[..i] + [key];
      if key !in groups {
        GroupEmpty(npus[..i], pools[..i], key);
        keys := keys + [key];
        groups := groups[key := [npus[i]]];
      } else {
        groups := groups[key := groups[key] + [npus[i]]];
      }
      i := i + 1;
    }
    assert npus[..i] == npus && pools[..i] == pools;
    GroupsAreListed(npus, pools, groups);
  }

  /** NPU number `k` stands in the group of its pool after those before it that share the pool. */
  predicate IsListed(groups: map<seq<int>, seq<int>>, npus: seq<int>, pools: seq<seq<int>>, k: nat)
    requires |npus| == |pools| && k < |npus|
  {
    && pools[k] in groups && Sharing(pools, pools[k], k) < |groups[pools[k]]|
    && groups[pools[k]][Sharing(pools, pools[k], k)] == npus[k]
  }

  lemma GroupsAreListed(npus: seq<int>, pools: seq<seq<int>>, groups: map<seq<int>, seq<int>>)
    requires |npus| == |pools|
    requires forall key :: key in groups <==> key in pools
    requires forall key :: key in groups ==> groups[key] == GroupOf(npus, pools, key)
    ensures forall key :: key in groups ==> |groups[key]| == Sharing(pools, key, |pools|)
    ensures forall k :: 0 <= k < |npus| ==> IsListed(groups, npus, pools, k)
  {
    hide GroupOf, Sharing;
    forall key | key in groups
      ensures |groups[key]| == Sharing(pools, key, |pools|)
    {
      GroupLength(npus, pools, key);
    }
    forall k | 0 <= k < |npus|
      ensures IsListed(groups, npus, pools, k)
    {
      GroupInOrder(npus, pools, pools[k], k);
    }
  }

  lemma {:induction false} GroupEmpty(npus: seq<int>, pools: seq<seq<int>>, key: seq<int>)
    requires |npus| == |pools| && key !in pools
    ensures GroupOf(npus, pools, key) == []
  {
    if npus != [] { GroupEmpty(npus[..|npus| - 1], pools[..|npus| - 1], key); }
  }

  /** `average_distribute` for one group of NPUs that share a pool. */
  method AverageDistribute(pool: seq<int>, npuList: seq<int>) returns (result: map<int, seq<int>>)
    requires npuList != [] && NoDuplicates(npuList)
    ensures result.Keys == set npu | npu in npuList
    ensures forall i :: 0 <= i < |npuList| ==> result[npuList[i]] == Part(Sorted(pool), |npuList|, i)
  {
    result := map[];
    var cpuList := Sorted(pool);
    var cpuNumPerNpu := |cpuList| / |npuList|;
    var i := 0;
    while i < |npuList|
      invariant 0 <= i <= |npuList|
      invariant result.Keys == set npu | npu in npuList[..i]
      invariant forall j :: 0 <= j < i ==> npuList[j] in npuList[..i] && result[npuList[j]] == Part(cpuList, |npuList|, j)
    {
      PartBounds(cpuList, |npuList|, i);
      var startIndex := i * cpuNumPerNpu;
      var endIndex := if i < |npuList| - 1 then (i + 1) * cpuNumPerNpu else |cpuList|;
      assert npuList[..i + 1] == npuList[..i] + [npuList[i]];
      result := result[npuList[i] := cpuList[startIndex..endIndex]];
      i := i + 1;
    }
    assert npuList[..i] == npuList;
  }

  /** The grouping and dividing loops together. */
  method FinalPools(npus: seq<int>, pools: seq<seq<int>>) returns (final: map<int, seq<int>>)
    requires |npus| == |pools| && NoDuplicates(npus)
    ensures forall npu :: npu in final <==> npu in npus
    ensures forall npu :: npu in npus ==> final[npu] == BoundPool(npus, pools, npu)
    ensures forall k :: 0 <= k < |npus| ==> npus[k] in final && IsShare(pools, k, final[npus[k]])
  {
    hide GroupOf, BoundPool, Sharing, IsShare, IsListed, NoDuplicates;
    var groupKeys, groups := GroupByPool(npus, pools);
    final := Distribute(npus, pools, groupKeys, groups);
    forall k | 0 <= k < |npus|
      ensures npus[k] in final && IsShare(pools, k, final[npus[k]])
    {
      assert npus[k] in npus;
      ShareIs(npus, pools, k);
    }
  }

  lemma ShareIs(npus: seq<int>, pools: seq<seq<int>>, k: nat)
    requires |npus| == |pools| && NoDuplicates(npus) && k < |npus|
    ensures IsShare(pools, k, BoundPool(npus, pools, npus[k]))
  {
    hide BoundPool, Sharing, NoDuplicates, Sorted;
    BoundPoolIs(npus, pools, k);
  }

  /** The last loop: a pool of one NPU is kept as it is, a shared pool is divided. */
  method Distribute(npus: seq<int>, pools: seq<seq<int>>, keys: seq<seq<int>>, groups: map<seq<int>, seq<int>>)
    returns (final: map<int, seq<int>>)
    requires |npus| == |pools| && NoDuplicates(npus)
    requires forall key :: key in groups <==> key in pools
    requires forall key :: key in keys <==> key in pools
    requires forall key :: key in groups ==> groups[key] == GroupOf(npus, pools, key)
    ensures forall npu :: npu in final <==> npu in npus
    ensures forall npu :: npu in npus ==> final[npu] == BoundPool(npus, pools, npu)
  {
    final := map[];
    var t := 0;
    while t < |keys|
      invariant 0 <= t <= |keys|
      invariant forall npu :: npu in final ==> npu in npus
      invariant forall npu :: npu in npus && PoolOf(npus, pools, npu) in keys[..t] ==>
                  npu in final && final[npu] == BoundPool(npus, pools, npu)
    {
      var key := keys[t];
      assert key in keys && key in groups;
      GroupMembers(npus, pools, key);
      var part := DistributeGroup(npus, pools, key, groups[key]);
      hide GroupOf, BoundPool;
      assert keys[..t + 1] == keys[..t] + [key];
      final := final + part;
      t := t + 1;
    }
    assert keys[..t] == keys;
    forall npu | npu in npus
      ensures npu in final && final[npu] == BoundPool(npus, pools, npu)
    {
      var pool := PoolOf(npus, pools, npu);
      assert pool in pools;
    }
  }

  /** One group: its pool as it is for a single NPU, a part of it for each of several. */
  method DistributeGroup(ghost npus: seq<int>, ghost pools: seq<seq<int>>, key: seq<int>, npuList: seq<int>)
    returns (part: map<int, seq<int>>)
    requires |npus| == |pools| && NoDuplicates(npus) && key in pools && npuList == GroupOf(npus, pools, key)
    ensures forall npu :: npu in part <==> npu in npuList
    ensures forall npu :: npu in npuList ==> part[npu] == BoundPool(npus, pools, npu)
  {
    GroupIs(npus, pools, key);
    GroupMembers(npus, pools, key);
    part := map[npuList[0] := key];
    if |npuList| > 1 {
      part := AverageDistribute(key, npuList);
    }
    forall npu | npu in npuList
      ensures npu in part && part[npu] == BoundPool(npus, pools, npu)
    {
      var i := IndexOf(npuList, npu);
    }
  }

  /** The members of a group are exactly the NPUs whose pool it is. */
  lemma GroupMembers(npus: seq<int>, pools: seq<seq<int>>, key: seq<int>)
    requires |npus| == |pools| && NoDuplicates(npus) && key in pools
    ensures GroupOf(npus, pools, key) != []
    ensures forall npu :: npu in GroupOf(npus, pools, key) <==> npu in npus && PoolOf(npus, pools, npu) == key
  {
    GroupIs(npus, pools, key);
    var group := GroupOf(npus, pools, key);
    var k :| 0 <= k < |pools| && pools[k] == key;
    assert npus[k] in group;
    forall npu | npu in npus
      ensures npu in group <==> PoolOf(npus, pools, npu) == key
    {
      var i := IndexOf(npus, npu);
    }
  }

  /** The node set of a list has one element exactly when all its CPUs lie on the node of the first. */
  lemma OneNodeIs(m: Machine, cpus: seq<int>, nodes: set<int>)
    requires cpus != [] && forall c :: c in cpus ==> c in m.cpuNode
    requires nodes == set c | c in cpus :: m.cpuNode[c]
    ensures |nodes| == 1 <==> OneNode(m, cpus)
    ensures |nodes| == 1 ==> forall node :: node in nodes ==> node == m.cpuNode[cpus[0]]
  {
    var c0 := cpus[0];
    assert c0 in cpus;
    var first := m.cpuNode[c0];
    assert first in nodes;
    if OneNode(m, cpus) {
      assert nodes == {first};
    } else {
      var c :| c in cpus && m.cpuNode[c] != first;
      assert m.cpuNode[c] in nodes - {first};
      assert |nodes| == |nodes - {first}| + 1;
    }
    if |nodes| == 1 {
      assert |nodes - {first}| == 0;
    }
  }

  lemma SortedSetEmpty(xs: seq<int>)
    ensures SortedSet(xs) == [] <==> xs == []
  {
    SortedSetIs(xs);
    if xs != [] {
      var x := xs[0];
      assert x in xs && x in SortedSet(xs);
    }
    if SortedSet(xs) != [] {
      var y := SortedSet(xs)[0];
      assert y in SortedSet(xs) && y in xs;
    }
  }
}
