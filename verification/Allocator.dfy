/**
 The ROCm path of the sleep-mode allocator: every allocation is one reserved address
 range backed by several physical chunks.

 The driver is part of the state.  The environment decides, for every driver call, the
 status it returns and the address a reservation gets; a call that the driver would
 refuse returns an error whatever the environment says.
 */
module Allocator {
  import opened Arith
  import opened ChunkPlan
  import opened DeviceMemory

  const INVALID_VALUE := 1

  /** The first non-zero status among `k` calls, 0 if there is none. */
  function FirstError(statusOf: nat -> int, first: nat, k: nat): int {
    if k == 0 then 0
    else
      var e := FirstError(statusOf, first, k - 1);
      if e != 0 then e else statusOf(first + k - 1)
  }

  lemma {:induction false} FirstErrorIs(statusOf: nat -> int, first: nat, k: nat)
    ensures FirstError(statusOf, first, k) == 0 <==> AllOk(statusOf, first, first + k)
  {
    if k > 0 { FirstErrorIs(statusOf, first, k - 1); }
  }

  lemma {:induction false} FirstErrorAppend(statusOf: nat -> int, first: nat, j: nat, k: nat)
    ensures FirstError(statusOf, first, j + k)
         == (if FirstError(statusOf, first, j) != 0 then FirstError(statusOf, first, j)
             else FirstError(statusOf, first + j, k))
  {
    if k > 0 { FirstErrorAppend(statusOf, first, j, k - 1); }
  }

  /** The error that a failed call reports: its status, or that the driver refused it. */
  function FailureOf(status: int): (e: int)
    ensures e != 0 && (status != 0 ==> e == status) && (status == 0 ==> e == INVALID_VALUE)
  {
    if status != 0 then status else INVALID_VALUE
  }

  /** Some handle that is not in use. */
  method Unused(used: set<nat>) returns (h: nat)
    ensures h !in used
  {
    h := 0;
    var above := used;
    while h in used
      invariant above == set x | x in used && h <= x
      decreases above
    {
      above := above - {h};
      h := h + 1;
    }
  }

  /** Chunk `j` of an allocation is mapped at its address and its handle is live. */
  ghost predicate ChunkAwake(m: Memory, dMem: nat, sizes: seq<nat>, handles: seq<nat>, j: nat)
    requires j < |sizes| == |handles|
  {
    var a := Addr(dMem, sizes, j);
    && a in m.mapped && m.mapped[a] == Mapping(sizes[j], handles[j])
    && handles[j] in m.live && m.live[handles[j]] == sizes[j]
  }

  ghost predicate IsAwake(m: Memory, dMem: nat, sizes: seq<nat>, handles: seq<nat>) {
    && |handles| == |sizes| && Positive(sizes) && Distinct(handles)
    && (forall j {:trigger ChunkAwake(m, dMem, sizes, handles, j)} :: 0 <= j < |sizes| ==>
          ChunkAwake(m, dMem, sizes, handles, j))
  }

  /** The driver accepts every unmap and every release of a mapped allocation. */
  lemma AwakeReleasable(m: Memory, dMem: nat, sizes: seq<nat>, handles: seq<nat>)
    requires IsAwake(m, dMem, sizes, handles)
    ensures Unmappable(m, dMem, sizes, Addrs(dMem, sizes), |sizes|) && AllLive(m, handles, |sizes|)
  {
    AddrsDistinct(dMem, sizes);
    assert handles[..|sizes|] == handles;
    forall j | 0 <= j < |sizes|
      ensures IsAddr(dMem, sizes, j, Addrs(dMem, sizes)[j]) && UnmapLegal(m, Addrs(dMem, sizes)[j], sizes[j])
      ensures handles[j] in m.live
    {
      assert ChunkAwake(m, dMem, sizes, handles, j);
    }
  }

  /** The memory after every chunk's unmap and release was tried, the first being call number `c`. */
  ghost function Released(m: Memory, dMem: nat, sizes: seq<nat>, handles: seq<nat>, statusOf: nat -> int, c: nat): Memory
    requires |handles| == |sizes|
  {
    m.(mapped := m.mapped - Undone(Addrs(dMem, sizes), statusOf, c, |sizes|),
       live := m.live - Undone(handles, statusOf, c + |sizes|, |sizes|))
  }

  /** What unmapping `k` chunks one after the other leaves, and the first error, whatever is mapped. */
  ghost function UnmapRun(m: Memory, dMem: nat, sizes: seq<nat>, statusOf: nat -> int, c: nat, k: nat): (Memory, int)
    requires k <= |sizes|
  {
    if k == 0 then (m, 0)
    else
      var (m1, e) := UnmapRun(m, dMem, sizes, statusOf, c, k - 1);
      var a := Addr(dMem, sizes, k - 1);
      var ok := statusOf(c + k - 1) == 0 && UnmapLegal(m1, a, sizes[k - 1]);
      (if ok then m1.(mapped := m1.mapped - {a}) else m1, if e != 0 || ok then e else FailureOf(statusOf(c + k - 1)))
  }

  /** What releasing `k` handles one after the other leaves, and the first error, whatever is live. */
  ghost function ReleaseRun(m: Memory, handles: seq<nat>, statusOf: nat -> int, c: nat, k: nat): (Memory, int)
    requires k <= |handles|
  {
    if k == 0 then (m, 0)
    else
      var (m1, e) := ReleaseRun(m, handles, statusOf, c, k - 1);
      var ok := statusOf(c + k - 1) == 0 && handles[k - 1] in m1.live;
      (if ok then m1.(live := m1.live - {handles[k - 1]}) else m1, if e != 0 || ok then e else FailureOf(statusOf(c + k - 1)))
  }

  /** Both loops of a release, from call `c` on. */
  ghost function ReleaseAll(m: Memory, dMem: nat, sizes: seq<nat>, handles: seq<nat>, statusOf: nat -> int, c: nat): (Memory, int)
    requires |handles| == |sizes|
  {
    var (m1, e1) := UnmapRun(m, dMem, sizes, statusOf, c, |sizes|);
    var (m2, e2) := ReleaseRun(m1, handles, statusOf, c + |sizes|, |sizes|);
    (m2, if e1 != 0 then e1 else e2)
  }

  lemma {:induction false} UnmapRunIs(m: Memory, dMem: nat, sizes: seq<nat>, addrs: seq<nat>, statusOf: nat -> int, c: nat, k: nat)
    requires Unmappable(m, dMem, sizes, addrs, k)
    ensures UnmapRun(m, dMem, sizes, statusOf, c, k)
         == (m.(mapped := m.mapped - Undone(addrs, statusOf, c, k)), FirstError(statusOf, c, k))
  {
    if k > 0 {
      assert Unmappable(m, dMem, sizes, addrs, k - 1);
      UnmapRunIs(m, dMem, sizes, addrs, statusOf, c, k - 1);
      assert IsAddr(dMem, sizes, k - 1, addrs[k - 1]);
      UndoneStep(m.mapped, addrs, statusOf, c, k - 1);
    } else {
      assert m.mapped - {} == m.mapped;
    }
  }

  lemma {:induction false} ReleaseRunIs(m: Memory, handles: seq<nat>, statusOf: nat -> int, c: nat, k: nat, n: nat)
    requires k <= n && AllLive(m, handles, n)
    ensures ReleaseRun(m, handles, statusOf, c, k)
         == (m.(live := m.live - Undone(handles[..n], statusOf, c, k)), FirstError(statusOf, c, k))
  {
    if k > 0 {
      ReleaseRunIs(m, handles, statusOf, c, k - 1, n);
      UndoneStep(m.live, handles[..n], statusOf, c, k - 1);
    } else {
      assert m.live - {} == m.live;
    }
  }

  /** On a mapped allocation exactly what failed calls were for remains. */
  lemma AwakeReleaseAll(m: Memory, dMem: nat, sizes: seq<nat>, handles: seq<nat>, statusOf: nat -> int, c: nat)
    requires IsAwake(m, dMem, sizes, handles)
    ensures ReleaseAll(m, dMem, sizes, handles, statusOf, c)
         == (Released(m, dMem, sizes, handles, statusOf, c), FirstError(statusOf, c, 2 * |sizes|))
  {
    var n := |sizes|;
    AwakeReleasable(m, dMem, sizes, handles);
    UnmapRunIs(m, dMem, sizes, Addrs(dMem, sizes), statusOf, c, n);
    var m1 := m.(mapped := m.mapped - Undone(Addrs(dMem, sizes), statusOf, c, n));
    assert AllLive(m1, handles, n) && handles[..n] == handles;
    ReleaseRunIs(m1, handles, statusOf, c + n, n, n);
    FirstErrorAppend(statusOf, c, n, n);
  }

  /** No chunk is mapped and no handle is live, as in an allocation that sleeps. */
  ghost predicate IsAsleep(m: Memory, dMem: nat, sizes: seq<nat>, handles: seq<nat>) {
    && |handles| == |sizes| && sizes != []
    && forall j :: 0 <= j < |sizes| ==> !UnmapLegal(m, Addr(dMem, sizes, j), sizes[j]) && handles[j] !in m.live
  }

  lemma {:induction false} AsleepRun(m: Memory, dMem: nat, sizes: seq<nat>, handles: seq<nat>, statusOf: nat -> int, c: nat, k: nat)
    requires IsAsleep(m, dMem, sizes, handles) && k <= |sizes|
    ensures UnmapRun(m, dMem, sizes, statusOf, c, k) == (m, if k == 0 then 0 else FailureOf(statusOf(c)))
    ensures ReleaseRun(m, handles, statusOf, c, k).0 == m
  {
    if k > 0 {
      AsleepRun(m, dMem, sizes, handles, statusOf, c, k - 1);
      assert !UnmapLegal(m, Addr(dMem, sizes, k - 1), sizes[k - 1]);
    }
  }

  /** Releasing an allocation that sleeps changes nothing and fails at the first unmap. */
  lemma AsleepReleaseAll(m: Memory, dMem: nat, sizes: seq<nat>, handles: seq<nat>, statusOf: nat -> int, c: nat)
    requires IsAsleep(m, dMem, sizes, handles)
    ensures ReleaseAll(m, dMem, sizes, handles, statusOf, c) == (m, FailureOf(statusOf(c)))
  {
    AsleepRun(m, dMem, sizes, handles, statusOf, c, |sizes|);
    AsleepRun(m, dMem, sizes, handles, statusOf, c + |sizes|, |sizes|);
  }

  /** How giving a range back and reserving it again, in calls `c` and `c + 1`, ends. */
  datatype Cycle = FreeRefused | ReserveRefused | Kept | Moved

  ghost function CycleOutcome(m: Memory, statusOf: nat -> int, placeOf: nat -> nat, c: nat, dMem: nat, size: nat): (r: Cycle)
    ensures r == Moved ==> placeOf(c + 1) != dMem
  {
    if statusOf(c) != 0 || !FreeLegal(m, dMem, size) then FreeRefused
    else if statusOf(c + 1) != 0 || !ReserveLegal(m.(reserved := m.reserved - {dMem}), placeOf(c + 1), size) then
      ReserveRefused
    else if placeOf(c + 1) == dMem then Kept
    else Moved
  }

  /** The memory that the cycle leaves. */
  ghost function Cycled(m: Memory, statusOf: nat -> int, placeOf: nat -> nat, c: nat, dMem: nat, size: nat): Memory {
    var gone := m.(reserved := m.reserved - {dMem});
    match CycleOutcome(m, statusOf, placeOf, c, dMem, size)
    case FreeRefused => m
    case ReserveRefused => gone
    case Kept => m
    case Moved => if statusOf(c + 2) == 0 then gone else gone.(reserved := gone.reserved[placeOf(c + 1) := size])
  }

  function Reserve(m: Memory, base: nat, size: nat): Memory {
    m.(reserved := m.reserved[base := size])
  }

  /** A new allocation: a range nothing else uses, chunks that fit it and fresh handles. */
  ghost predicate Allocated(before: Memory, base: nat, size: nat, sizes: seq<nat>, handles: seq<nat>) {
    && 0 < base && |handles| == |sizes| && Positive(sizes) && Offset(sizes, |sizes|) <= size
    && base !in before.reserved && Sound(Reserve(before, base, size)) && RangeClear(before, base, size)
    && FreshPrefix(before, handles, |sizes|)
  }

  lemma ReserveSound(m: Memory, base: nat, size: nat)
    requires Sound(m) && ReserveLegal(m, base, size)
    ensures Sound(Reserve(m, base, size)) && 0 < base && base !in m.reserved && Vacant(Reserve(m, base, size), base, size)
    ensures RangeClear(m, base, size) && FreeLegal(Reserve(m, base, size), base, size)
    ensures Reserve(m, base, size).(reserved := Reserve(m, base, size).reserved - {base}) == m
  {
  }

  /** A reserved range with nothing mapped in it. */
  ghost predicate Vacant(m: Memory, base: nat, size: nat) {
    Sound(m) && RangeReserved(m, base, size) && RangeClear(m, base, size)
  }

  /** Something is mapped in a range. */
  ghost predicate Taken(m: Memory, base: nat, size: nat) {
    exists a :: a in m.mapped && !Apart(a, m.mapped[a].size, base, size)
  }

  /** Something is mapped where the first chunk of an allocation belongs. */
  ghost predicate Occupied(m: Memory, base: nat, sizes: seq<nat>) {
    sizes != [] && Taken(m, base, sizes[0])
  }

  lemma SmallerRange(m: Memory, base: nat, size: nat, larger: nat)
    requires size <= larger && Vacant(m, base, larger)
    ensures Vacant(m, base, size)
  {
  }

  /** What the map loop needs, and when access can be set after it. */
  lemma MapsAndAccess(m: Memory, base: nat, size: nat, sizes: seq<nat>, handles: seq<nat>)
    requires |handles| == |sizes| && Positive(sizes) && Offset(sizes, |sizes|) <= size
    requires Vacant(m, base, size) || Occupied(m, base, sizes)
    ensures Vacant(m, base, Offset(sizes, |sizes|)) || Occupied(m, base, sizes)
    ensures Occupied(m, base, sizes) ==> sizes != []
    ensures !Occupied(m, base, sizes) ==>
              (AccessLegal(Awake(m, base, sizes, handles), base, size) <==> Offset(sizes, |sizes|) == size)
  {
    if !Occupied(m, base, sizes) {
      SmallerRange(m, base, Offset(sizes, |sizes|), size);
      AwakeAccess(m, base, size, sizes, handles);
    }
  }

  lemma VacantIsNotOccupied(m: Memory, base: nat, size: nat, sizes: seq<nat>)
    requires Vacant(m, base, size) && Positive(sizes) && Offset(sizes, |sizes|) <= size
    ensures !Occupied(m, base, sizes)
  {
    if sizes != [] { OffsetMonotone(sizes, 0, |sizes|); }
  }

  /** The driver refuses to map a chunk onto something that is mapped. */
  lemma TakenIsRefused(before: Memory, dMem: nat, sizes: seq<nat>, handles: seq<nat>)
    requires sizes != [] && |handles| == |sizes| && Taken(before, dMem, sizes[0])
    ensures !MapLegal(PartlyMapped(before, dMem, sizes, handles, 0), dMem, sizes[0], handles[0])
  {
  }

  /** A range with mapped chunks cannot be given back. */
  lemma AwakeNotFree(m: Memory, base: nat, size: nat, sizes: seq<nat>, handles: seq<nat>)
    requires |handles| == |sizes| && sizes != [] && Positive(sizes) && Offset(sizes, |sizes|) <= size
    ensures !FreeLegal(Awake(m, base, sizes, handles), base, size)
  {
    var mapped, x := Awake(m, base, sizes, handles).mapped, base;
    assert x in mapped && mapped[x].size == sizes[0] by {
      AddrsDistinct(base, sizes);
      TableIs(Addrs(base, sizes), Mappings(sizes, handles), |sizes|);
      assert Addrs(base, sizes)[0] == base;
    }
    hide Awake;
    assert 0 < sizes[0] <= size by { OffsetMonotone(sizes, 1, |sizes|); }
  }

  lemma MappingsUndone(before: Memory, dMem: nat, sizes: seq<nat>, handles: seq<nat>, statusOf: nat -> int, c: nat)
    requires |handles| == |sizes| && Positive(sizes)
    requires Sound(before) && RangeClear(before, dMem, Offset(sizes, |sizes|))
    ensures (before.mapped == (before.mapped + Layout(dMem, sizes, handles, |sizes|)) - Undone(Addrs(dMem, sizes), statusOf, c, |sizes|))
       <==> AllOk(statusOf, c, c + |sizes|)
  {
    AddrsDistinct(dMem, sizes);
    AddrsUnused(before, dMem, sizes, handles, |sizes|);
    TableIs(Addrs(dMem, sizes), Mappings(sizes, handles), |sizes|);
    UndoneRestores(before.mapped, Layout(dMem, sizes, handles, |sizes|), Addrs(dMem, sizes), |sizes|, statusOf, c);
  }

  lemma HandlesUndone(before: Memory, sizes: seq<nat>, handles: seq<nat>, statusOf: nat -> int, c: nat)
    requires |handles| == |sizes| && FreshPrefix(before, handles, |sizes|)
    ensures (before.live == (before.live + Owned(sizes, handles, |sizes|)) - Undone(handles, statusOf, c, |sizes|))
       <==> AllOk(statusOf, c, c + |sizes|)
  {
    assert handles[..|sizes|] == handles;
    TableIs(handles, sizes, |sizes|);
    UndoneRestores(before.live, Owned(sizes, handles, |sizes|), handles, |sizes|, statusOf, c);
  }

  /** Releasing a freshly mapped allocation restores the memory exactly when every call succeeds. */
  lemma ReleasedIsBefore(before: Memory, dMem: nat, sizes: seq<nat>, handles: seq<nat>, statusOf: nat -> int, c: nat)
    requires |handles| == |sizes| && Positive(sizes) && FreshPrefix(before, handles, |sizes|)
    requires Sound(before) && RangeClear(before, dMem, Offset(sizes, |sizes|))
    ensures (Released(Awake(before, dMem, sizes, handles), dMem, sizes, handles, statusOf, c) == before)
       <==> FirstError(statusOf, c, 2 * |sizes|) == 0
  {
    hide Layout, Owned, Undone, Sound, RangeClear, FreshPrefix, Positive, FirstError, AllOk;
    MappingsUndone(before, dMem, sizes, handles, statusOf, c);
    HandlesUndone(before, sizes, handles, statusOf, c + |sizes|);
    FirstErrorIs(statusOf, c, |sizes|);
    FirstErrorIs(statusOf, c + |sizes|, |sizes|);
    FirstErrorAppend(statusOf, c, |sizes|, |sizes|);
  }

  /** After the cycle that starts at call `c`, and one more free, nothing of the range is reserved. */
  ghost predicate GivenBack(m: Memory, statusOf: nat -> int, placeOf: nat -> nat, c: nat, dMem: nat, size: nat) {
    match CycleOutcome(m, statusOf, placeOf, c, dMem, size)
    case FreeRefused => FreeLegal(m, dMem, size) && statusOf(c + 1) == 0
    case ReserveRefused => true
    case Kept => statusOf(c + 2) == 0
    case Moved => statusOf(c + 2) == 0
  }

  /** A new range can be given back once, and only with the size it was reserved with. */
  lemma FreeOnce(before: Memory, base: nat, alignedSize: nat, size: nat)
    requires base !in before.reserved && RangeClear(before, base, alignedSize)
    ensures FreeLegal(Reserve(before, base, alignedSize), base, size) <==> size == alignedSize
    ensures !FreeLegal(before, base, size)
    ensures Reserve(before, base, alignedSize).(reserved := Reserve(before, base, alignedSize).reserved - {base}) == before
  {
  }

  /** What releasing a new allocation and cycling its range can end in. */
  lemma ReleaseOutcome(before: Memory, ptr: nat, alignedSize: nat, size: nat, handles: seq<nat>, sizes: seq<nat>,
                       statusOf: nat -> int, placeOf: nat -> nat, c: nat)
    requires Allocated(before, ptr, alignedSize, sizes, handles)
    ensures var reserved, cycle := Reserve(before, ptr, alignedSize), c + 2 * |sizes|;
            var released := Released(Awake(reserved, ptr, sizes, handles), ptr, sizes, handles, statusOf, c);
            && released.reserved == reserved.reserved
            && (released == reserved <==> FirstError(statusOf, c, 2 * |sizes|) == 0)
            && ptr !in before.reserved
            && (FreeLegal(reserved, ptr, size) <==> size == alignedSize)
            && reserved.(reserved := reserved.reserved - {ptr}) == before
            && var outcome := CycleOutcome(reserved, statusOf, placeOf, cycle, ptr, size);
               && (size != alignedSize ==> outcome == FreeRefused)
               && (outcome == Moved ==> placeOf(cycle + 1) != ptr && placeOf(cycle + 1) !in before.reserved)
  {
    ReleasedIsBefore(Reserve(before, ptr, alignedSize), ptr, sizes, handles, statusOf, c);
    FreeOnce(before, ptr, alignedSize, size);
    hide Layout, Owned, Undone, FirstError;
  }

  /** The memory after one call that gives a range back. */
  ghost function AfterFree(m: Memory, status: int, ptr: nat, size: nat): Memory {
    if status == 0 && FreeLegal(m, ptr, size) then m.(reserved := m.reserved - {ptr}) else m
  }

  /** The memory that cycling a range from call `c` on, if no error came before, and one more free leave of `m`. */
  ghost function Freed(m: Memory, error: int, statusOf: nat -> int, placeOf: nat -> nat, c: nat, ptr: nat, size: nat): Memory {
    var gone := m.(reserved := m.reserved - {ptr});
    if error != 0 then AfterFree(m, statusOf(c), ptr, size)
    else
      match CycleOutcome(m, statusOf, placeOf, c, ptr, size)
      case FreeRefused => AfterFree(m, statusOf(c + 1), ptr, size)
      case ReserveRefused => gone
      case Kept => AfterFree(m, statusOf(c + 2), ptr, size)
      case Moved => if statusOf(c + 2) == 0 then gone else gone.(reserved := gone.reserved[placeOf(c + 1) := size])
  }

  lemma FreedAfterError(m: Memory, error: int, statusOf: nat -> int, placeOf: nat -> nat, c: nat, ptr: nat, size: nat)
    requires error != 0
    ensures Freed(m, error, statusOf, placeOf, c, ptr, size) == AfterFree(m, statusOf(c), ptr, size)
  {
    hide CycleOutcome, AfterFree;
  }

  lemma FreedIsBefore(before: Memory, ptr: nat, alignedSize: nat, size: nat, handles: seq<nat>, sizes: seq<nat>,
                      statusOf: nat -> int, placeOf: nat -> nat, c: nat)
    requires Allocated(before, ptr, alignedSize, sizes, handles)
    ensures var reserved, cycle, error := Reserve(before, ptr, alignedSize), c + 2 * |sizes|, FirstError(statusOf, c, 2 * |sizes|);
            var released := Released(Awake(reserved, ptr, sizes, handles), ptr, sizes, handles, statusOf, c);
            var freed := Freed(released, error, statusOf, placeOf, cycle, ptr, size);
            && (freed == before <==> size == alignedSize && error == 0 && GivenBack(reserved, statusOf, placeOf, cycle, ptr, size))
            && (size != alignedSize ==>
                  && freed == released && freed.reserved == reserved.reserved && (freed == reserved <==> error == 0)
                  && (error == 0 ==> CycleOutcome(released, statusOf, placeOf, cycle, ptr, size) == FreeRefused))
            && IsAwake(Awake(reserved, ptr, sizes, handles), ptr, sizes, handles)
  {
    assert handles[..|sizes|] == handles;
    AwakeIs(Reserve(before, ptr, alignedSize), ptr, sizes, handles);
    ReleaseOutcome(before, ptr, alignedSize, size, handles, sizes, statusOf, placeOf, c);
    hide Allocated, Awake, IsAwake, Released, CycleOutcome, FirstError;
  }

  /**
   What a failed allocation leaves: after a failed access call everything is mapped, and after any other
   failing call the memory is what it was before exactly when no later call, which cleans up, fails.
   */
  ghost predicate FailureLeaves(statusOf: nat -> int, failed: nat, calls: nat, access: bool,
                                before: Memory, mapped: Memory, after: Memory) {
    if access then after == mapped else after == before <==> AllOk(statusOf, failed + 1, calls)
  }

  lemma NothingToCleanUp(statusOf: nat -> int, failed: nat, m: Memory, mapped: Memory)
    ensures FailureLeaves(statusOf, failed, failed + 1, false, m, mapped, m)
  {
  }

  /** The memory right after an allocation was made. */
  ghost predicate IsMade(before: Memory, ptr: nat, alignedSize: nat, sizes: seq<nat>, handles: seq<nat>, m: Memory) {
    && Allocated(before, ptr, alignedSize, sizes, handles)
    && m == Awake(Reserve(before, ptr, alignedSize), ptr, sizes, handles)
  }

  lemma MadeReleaseAll(before: Memory, ptr: nat, alignedSize: nat, size: nat, handles: seq<nat>, sizes: seq<nat>,
                       statusOf: nat -> int, placeOf: nat -> nat, c: nat, m: Memory)
    requires IsMade(before, ptr, alignedSize, sizes, handles, m) && |handles| == |sizes|
    ensures var reserved, cycle := Reserve(before, ptr, alignedSize), c + 2 * |sizes|;
            var (released, error) := ReleaseAll(m, ptr, sizes, handles, statusOf, c);
            var freed := Freed(released, error, statusOf, placeOf, cycle, ptr, size);
            && error == FirstError(statusOf, c, 2 * |sizes|)
            && (freed == before <==> size == alignedSize && error == 0 && GivenBack(reserved, statusOf, placeOf, cycle, ptr, size))
            && (size != alignedSize ==>
                  && freed.reserved == reserved.reserved && (freed == reserved <==> error == 0)
                  && (error == 0 ==> CycleOutcome(released, statusOf, placeOf, cycle, ptr, size) == FreeRefused))
  {
    hide Allocated, Awake, IsAwake, Released, ReleaseAll, CycleOutcome, FirstError, Freed, GivenBack;
    FreedIsBefore(before, ptr, alignedSize, size, handles, sizes, statusOf, placeOf, c);
    AwakeReleaseAll(m, ptr, sizes, handles, statusOf, c);
  }

  /** What undoing the first `count` mappings and all creates leaves. */
  lemma MappingsRolledBack(before: Memory, dMem: nat, sizes: seq<nat>, hs: seq<nat>, count: nat, statusOf: nat -> int, c: nat)
    requires count <= |hs| == |sizes| && Positive(sizes) && FreshPrefix(before, hs, |sizes|)
    requires 0 < count ==> Sound(before) && RangeClear(before, dMem, Offset(sizes, |sizes|))
    ensures var m := UnmapRun(PartlyMapped(before, dMem, sizes, hs, count), dMem, sizes, statusOf, c, count).0;
            var m' := ReleaseRun(m, hs, statusOf, c + count, |sizes|).0;
            && m'.reserved == before.reserved
            && (m' == before <==> AllOk(statusOf, c, c + count) && AllOk(statusOf, c + count, c + count + |sizes|))
  {
    hide *;
    var n, m := |sizes|, PartlyMapped(before, dMem, sizes, hs, count);
    UnmapsRolledBack(before, dMem, sizes, hs, count, statusOf, c);
    var m1 := UnmapRun(m, dMem, sizes, statusOf, c, count).0;
    assert hs[..n] == hs;
    OwnedAreLive(before, sizes, hs, m1);
    HandlesUndone(before, sizes, hs, statusOf, c + count);
    ReleaseRunIs(m1, hs, statusOf, c + count, n, n);
  }

  lemma OwnedAreLive(before: Memory, sizes: seq<nat>, hs: seq<nat>, m: Memory)
    requires |hs| == |sizes| && FreshPrefix(before, hs, |sizes|) && m.live == before.live + Owned(sizes, hs, |sizes|)
    ensures AllLive(m, hs, |sizes|)
  {
    assert hs[..|sizes|] == hs;
    TableIs(hs, sizes, |sizes|);
  }

  lemma UnmapsRolledBack(before: Memory, dMem: nat, sizes: seq<nat>, hs: seq<nat>, count: nat, statusOf: nat -> int, c: nat)
    requires count <= |hs| == |sizes| && Positive(sizes)
    requires 0 < count ==> Sound(before) && RangeClear(before, dMem, Offset(sizes, |sizes|))
    ensures var m := UnmapRun(PartlyMapped(before, dMem, sizes, hs, count), dMem, sizes, statusOf, c, count).0;
            && m.reserved == before.reserved && m.live == before.live + Owned(sizes, hs, |sizes|)
            && (m.mapped == before.mapped <==> AllOk(statusOf, c, c + count))
  {
    var addrs, m := Addrs(dMem, sizes), PartlyMapped(before, dMem, sizes, hs, count);
    PartlyMappedIs(before, dMem, sizes, hs, count);
    AddrsDistinct(dMem, sizes);
    if count > 0 { AddrsUnused(before, dMem, sizes, hs, count); }
    TableIs(addrs, Mappings(sizes, hs), count);
    UndoneRestores(before.mapped, Layout(dMem, sizes, hs, count), addrs, count, statusOf, c);
    forall j | 0 <= j < count
      ensures IsAddr(dMem, sizes, j, addrs[j]) && UnmapLegal(m, addrs[j], sizes[j])
    {
      LayoutUnmappable(m, dMem, sizes, hs, count, j);
    }
    UnmapRunIs(m, dMem, sizes, addrs, statusOf, c, count);
  }

  /** A free after which no error is left: nothing failed to be released and the range was offered again and given back. */
  ghost predicate FreedCleanly(m: Memory, error: int, statusOf: nat -> int, placeOf: nat -> nat, c: nat, ptr: nat, size: nat) {
    error == 0 && CycleOutcome(m, statusOf, placeOf, c, ptr, size) == Kept && statusOf(c + 2) == 0
  }

  /** Three more calls. */
  lemma AllOkThree(statusOf: nat -> int, c: nat, d: nat)
    requires c <= d
    ensures AllOk(statusOf, c, d + 3) <==>
              AllOk(statusOf, c, d) && statusOf(d) == 0 && statusOf(d + 1) == 0 && statusOf(d + 2) == 0
  {
    hide AllOk;
    AllOkSplit(statusOf, c, d, d + 3);
    AllOkSplit(statusOf, d, d + 1, d + 3);
    AllOkSplit(statusOf, d + 1, d + 2, d + 3);
    AllOkOne(statusOf, d);
    AllOkOne(statusOf, d + 1);
    AllOkOne(statusOf, d + 2);
  }

  /** The cycle keeps the range of a new allocation exactly when the same place is offered again. */
  lemma KeptIs(before: Memory, ptr: nat, alignedSize: nat, size: nat, statusOf: nat -> int, placeOf: nat -> nat, c: nat)
    requires ptr !in before.reserved && RangeClear(before, ptr, alignedSize)
    ensures CycleOutcome(Reserve(before, ptr, alignedSize), statusOf, placeOf, c, ptr, size) == Kept <==>
              && size == alignedSize && statusOf(c) == 0 && statusOf(c + 1) == 0 && placeOf(c + 1) == ptr
              && ReserveLegal(before, ptr, size)
  {
    FreeOnce(before, ptr, alignedSize, size);
    hide FreeLegal, ReserveLegal, Reserve;
  }

  /** Exactly when freeing a new allocation leaves no error. */
  lemma MadeFreesCleanly(before: Memory, ptr: nat, alignedSize: nat, size: nat, handles: seq<nat>, sizes: seq<nat>,
                         statusOf: nat -> int, placeOf: nat -> nat, c: nat, m: Memory)
    requires IsMade(before, ptr, alignedSize, sizes, handles, m) && |handles| == |sizes|
    ensures var cycle := c + 2 * |sizes|;
            var (released, error) := ReleaseAll(m, ptr, sizes, handles, statusOf, c);
            FreedCleanly(released, error, statusOf, placeOf, cycle, ptr, size) <==>
              && size == alignedSize && AllOk(statusOf, c, cycle + 3) && placeOf(cycle + 1) == ptr
              && ReserveLegal(before, ptr, size)
  {
    hide Awake, IsAwake, Released, ReleaseAll, CycleOutcome, FirstError, AllOk, Reserve, ReserveLegal, RangeClear, Freed, GivenBack;
    FreedIsBefore(before, ptr, alignedSize, size, handles, sizes, statusOf, placeOf, c);
    ReleaseOutcome(before, ptr, alignedSize, size, handles, sizes, statusOf, placeOf, c);
    AwakeReleaseAll(m, ptr, sizes, handles, statusOf, c);
    FirstErrorIs(statusOf, c, 2 * |sizes|);
    AllOkThree(statusOf, c, c + 2 * |sizes|);
    KeptIs(before, ptr, alignedSize, size, statusOf, placeOf, c + 2 * |sizes|);
  }

  /** With a driver that never fails any more, a range freed with its own size is given back. */
  lemma QuietFree(before: Memory, ptr: nat, size: nat, sizes: seq<nat>, handles: seq<nat>, m: Memory,
                  statusOf: nat -> int, placeOf: nat -> nat, c: nat, n: nat)
    requires forall k :: c <= k ==> statusOf(k) == 0
    requires Allocated(before, ptr, size, sizes, handles) && m == Awake(Reserve(before, ptr, size), ptr, sizes, handles)
    ensures IsMade(before, ptr, size, sizes, handles, m)
    ensures FirstError(statusOf, c, n) == 0 && AllOk(statusOf, c, c + n + 3)
    ensures GivenBack(Reserve(before, ptr, size), statusOf, placeOf, c + n, ptr, size)
    ensures Reserve(before, ptr, size).mapped == before.mapped
  {
    FirstErrorIs(statusOf, c, n);
    FreeOnce(before, ptr, size, size);
    hide FirstError, ReserveLegal, FreeLegal, RangeClear, Awake, Sound, Offset, Positive, FreshPrefix;
  }

  lemma QuietCalls(statusOf: nat -> int, c: nat, n: nat)
    requires forall k :: c <= k ==> statusOf(k) == 0
    ensures AllOk(statusOf, c, c + 2 * n + 3)
  {
  }

  lemma MultipleIsAligned(size: nat, granularity: nat)
    requires 0 < granularity
    ensures RoundUp(size, granularity) == size <==> size % granularity == 0
  {
    if size % granularity == 0 { RoundUpLeast(size, granularity, size); }
  }

  lemma AwakeEmpty(m: Memory, dMem: nat)
    ensures Awake(m, dMem, [], []) == m
  {
  }

  lemma AwakeIs(before: Memory, dMem: nat, sizes: seq<nat>, handles: seq<nat>)
    requires |handles| == |sizes| && Positive(sizes) && Distinct(handles)
    ensures IsAwake(Awake(before, dMem, sizes, handles), dMem, sizes, handles)
  {
    var n, addrs := |sizes|, Addrs(dMem, sizes);
    AddrsDistinct(dMem, sizes);
    TableIs(addrs, Mappings(sizes, handles), n);
    TableIs(handles, sizes, n);
    forall j | 0 <= j < n
      ensures ChunkAwake(Awake(before, dMem, sizes, handles), dMem, sizes, handles, j)
    {
      assert addrs[j] == Addr(dMem, sizes, j);
    }
  }

  class Allocator {
    /** The status of call number `c`, unless the driver refuses that call. */
    const statusOf: nat -> int
    /** The address offered by call number `c`, if it is a reservation. */
    const placeOf: nat -> nat
    const granularity: nat
    var mem: Memory
    var calls: nat
    var errorCode: int

    constructor (statusOf: nat -> int, placeOf: nat -> nat, granularity: nat)
      ensures this.statusOf == statusOf && this.placeOf == placeOf && this.granularity == granularity
      ensures mem == Memory(map[], map[], map[]) && calls == 0 && errorCode == 0
    {
      this.statusOf, this.placeOf, this.granularity := statusOf, placeOf, granularity;
      mem, calls, errorCode := Memory(map[], map[], map[]), 0, 0;
    }

    // ----- driver calls

    /** `CUDA_CHECK`: an error is remembered, a success forgets nothing. */
    method Check(status: int)
      modifies this`errorCode
      ensures errorCode == if status != 0 then status else old(errorCode)
    {
      if status != 0 { errorCode := status; }
    }

    method MemCreate(size: nat) returns (status: int, handle: nat)
      modifies this`mem, this`calls
      ensures calls == old(calls) + 1 && status == statusOf(old(calls))
      ensures status != 0 ==> mem == old(mem)
      ensures status == 0 ==> handle !in old(mem.live) && mem == old(mem).(live := old(mem.live)[handle := size])
    {
      status, handle := statusOf(calls), 0;
      calls := calls + 1;
      if status == 0 {
        handle := Unused(mem.live.Keys);
        mem := mem.(live := mem.live[handle := size]);
      }
    }

    method MemMap(addr: nat, size: nat, handle: nat) returns (status: int)
      modifies this`mem, this`calls
      ensures calls == old(calls) + 1
      ensures status == if statusOf(old(calls)) == 0 && !MapLegal(old(mem), addr, size, handle) then INVALID_VALUE
                        else statusOf(old(calls))
      ensures mem == if status == 0 then old(mem).(mapped := old(mem.mapped)[addr := Mapping(size, handle)]) else old(mem)
    {
      status := statusOf(calls);
      calls := calls + 1;
      if status == 0 {
        if MapLegal(mem, addr, size, handle) {
          mem := mem.(mapped := mem.mapped[addr := Mapping(size, handle)]);
        } else {
          status := INVALID_VALUE;
        }
      }
    }

    method MemUnmap(addr: nat, size: nat) returns (status: int)
      modifies this`mem, this`calls
      ensures calls == old(calls) + 1
      ensures status == if statusOf(old(calls)) == 0 && !UnmapLegal(old(mem), addr, size) then INVALID_VALUE
                        else statusOf(old(calls))
      ensures mem == if status == 0 then old(mem).(mapped := old(mem.mapped) - {addr}) else old(mem)
    {
      status := statusOf(calls);
      calls := calls + 1;
      if status == 0 {
        if UnmapLegal(mem, addr, size) {
          mem := mem.(mapped := mem.mapped - {addr});
        } else {
          status := INVALID_VALUE;
        }
      }
    }

    method MemRelease(handle: nat) returns (status: int)
      modifies this`mem, this`calls
      ensures calls == old(calls) + 1
      ensures status == if statusOf(old(calls)) == 0 && handle !in old(mem.live) then INVALID_VALUE
                        else statusOf(old(calls))
      ensures mem == if status == 0 then old(mem).(live := old(mem.live) - {handle}) else old(mem)
    {
      status := statusOf(calls);
      calls := calls + 1;
      if status == 0 {
        if handle in mem.live {
          mem := mem.(live := mem.live - {handle});
        } else {
          status := INVALID_VALUE;
        }
      }
    }

    /** Queries the granularity. */
    method GetGranularity() returns (status: int)
      modifies this`calls
      ensures calls == old(calls) + 1 && status == statusOf(old(calls))
    {
      status := statusOf(calls);
      calls := calls + 1;
    }

    method SetAccess(addr: nat, size: nat) returns (status: int)
      modifies this`calls
      ensures calls == old(calls) + 1
      ensures status == if statusOf(old(calls)) == 0 && !AccessLegal(mem, addr, size) then INVALID_VALUE
                        else statusOf(old(calls))
    {
      status := statusOf(calls);
      if status == 0 && !AccessLegal(mem, addr, size) { status := INVALID_VALUE; }
      calls := calls + 1;
    }

    method AddressReserve(size: nat) returns (status: int, addr: nat)
      modifies this`mem, this`calls
      ensures calls == old(calls) + 1 && addr == placeOf(old(calls))
      ensures status == if statusOf(old(calls)) == 0 && !ReserveLegal(old(mem), addr, size) then INVALID_VALUE
                        else statusOf(old(calls))
      ensures mem == if status == 0 then old(mem).(reserved := old(mem.reserved)[addr := size]) else old(mem)
    {
      status, addr := statusOf(calls), placeOf(calls);
      calls := calls + 1;
      if status == 0 {
        if ReserveLegal(mem, addr, size) {
          mem := mem.(reserved := mem.reserved[addr := size]);
        } else {
          status := INVALID_VALUE;
        }
      }
    }

    method AddressFree(addr: nat, size: nat) returns (status: int)
      modifies this`mem, this`calls
      ensures calls == old(calls) + 1
      ensures status == if statusOf(old(calls)) == 0 && !FreeLegal(old(mem), addr, size) then INVALID_VALUE
                        else statusOf(old(calls))
      ensures mem == if status == 0 then old(mem).(reserved := old(mem.reserved) - {addr}) else old(mem)
    {
      status := statusOf(calls);
      calls := calls + 1;
      if status == 0 {
        if FreeLegal(mem, addr, size) {
          mem := mem.(reserved := mem.reserved - {addr});
        } else {
          status := INVALID_VALUE;
        }
      }
    }

    // ----- the unmap and release loops

    /** Unmaps the first `count` chunks, going on after a failure. */
    method UnmapChunks(dMem: nat, chunkSizes: seq<nat>, count: nat, error: int) returns (firstError: int)
      requires count <= |chunkSizes|
      modifies this`mem, this`calls
      ensures calls == old(calls) + count
      ensures mem == UnmapRun(old(mem), dMem, chunkSizes, statusOf, old(calls), count).0
      ensures firstError == if error != 0 then error else UnmapRun(old(mem), dMem, chunkSizes, statusOf, old(calls), count).1
    {
      firstError := error;
      var allocatedSize := 0;
      var i := 0;
      while i < count
        invariant 0 <= i <= count && allocatedSize == Offset(chunkSizes, i)
        invariant calls == old(calls) + i
        invariant mem == UnmapRun(old(mem), dMem, chunkSizes, statusOf, old(calls), i).0
        invariant firstError == if error != 0 then error else UnmapRun(old(mem), dMem, chunkSizes, statusOf, old(calls), i).1
      {
        assert dMem + allocatedSize == Addr(dMem, chunkSizes, i);
        var status := MemUnmap(dMem + allocatedSize, chunkSizes[i]);
        if status != 0 && firstError == 0 { firstError := status; }
        allocatedSize := allocatedSize + chunkSizes[i];
        i := i + 1;
      }
    }

    /** Releases the first `count` handles, going on after a failure. */
    method ReleaseHandles(handles: array<nat>, count: nat, error: int) returns (firstError: int)
      requires count <= handles.Length
      modifies this`mem, this`calls
      ensures calls == old(calls) + count
      ensures mem == ReleaseRun(old(mem), handles[..], statusOf, old(calls), count).0
      ensures firstError == if error != 0 then error else ReleaseRun(old(mem), handles[..], statusOf, old(calls), count).1
    {
      firstError := error;
      var i := 0;
      while i < count
        invariant 0 <= i <= count && calls == old(calls) + i
        invariant mem == ReleaseRun(old(mem), handles[..], statusOf, old(calls), i).0
        invariant firstError == if error != 0 then error else ReleaseRun(old(mem), handles[..], statusOf, old(calls), i).1
      {
        var status := MemRelease(handles[i]);
        if status != 0 && firstError == 0 { firstError := status; }
        i := i + 1;
      }
    }

    // ----- create_and_map

    /** Releases the handles created so far; the memory is what it was exactly when every release succeeds. */
    method RollBackCreate(handles: array<nat>, chunkSizes: seq<nat>, count: nat, ghost before: Memory)
      requires count <= handles.Length == |chunkSizes| && FreshPrefix(before, handles[..], count)
      requires mem == before.(live := before.live + Owned(chunkSizes, handles[..], count))
      modifies this`mem, this`calls
      ensures calls == old(calls) + count && mem.reserved == before.reserved
      ensures mem == before <==> AllOk(statusOf, old(calls), calls)
    {
      TableIsPrefix(handles[..], chunkSizes, count);
      assert handles[..][..count] == handles[..count];
      UndoneRestores(before.live, Owned(chunkSizes, handles[..], count), handles[..count], count, statusOf, calls);
      ReleaseRunIs(mem, handles[..], statusOf, calls, count, count);
      var _ := ReleaseHandles(handles, count, 0);
    }

    /**
     The create loop.  `f` is the first call that fails, `|chunkSizes|` if none does.  A failed
     create is rolled back by releasing the handles before it.  When an error is already
     pending, the first create is taken for a failure: if it succeeds, its handle is lost.
     */
    method CreateChunks(handles: array<nat>, chunkSizes: seq<nat>) returns (ghost f: nat)
      requires handles.Length == |chunkSizes|
      modifies this`mem, this`calls, this`errorCode, handles
      ensures f <= |chunkSizes| && mem.reserved == old(mem.reserved) && old(calls) + f <= calls
      ensures old(errorCode) == 0 ==> AllOk(statusOf, old(calls), old(calls) + f)
      ensures old(errorCode) == 0 && f < |chunkSizes| ==>
                && errorCode == statusOf(old(calls) + f) != 0 && calls == old(calls) + f + 1 + f
                && (mem == old(mem) <==> AllOk(statusOf, old(calls) + f + 1, calls))
      ensures f == |chunkSizes| ==>
                && errorCode == old(errorCode) && calls == old(calls) + f && FreshPrefix(old(mem), handles[..], f)
                && mem == old(mem).(live := old(mem.live) + Owned(chunkSizes, handles[..], f))
      ensures old(errorCode) != 0 && 0 < |chunkSizes| ==>
                && f == 0 && errorCode != 0 && (statusOf(old(calls)) == 0 ==> handles[0] !in old(mem.live))
                && mem == if statusOf(old(calls)) != 0 then old(mem)
                          else old(mem).(live := old(mem.live)[handles[0] := chunkSizes[0]])
    {
      hide AllOk, FreshPrefix, Owned;
      f := 0;
      var i := 0;
      NothingOwned(mem, handles[..], chunkSizes);
      AllOkOne(statusOf, calls);
      while i < |chunkSizes|
        invariant 0 <= i == f <= |chunkSizes| && errorCode == old(errorCode) && (errorCode != 0 ==> i == 0)
        invariant calls == old(calls) + i && AllOk(statusOf, old(calls), calls)
        invariant FreshPrefix(old(mem), handles[..], i)
        invariant mem == old(mem).(live := old(mem.live) + Owned(chunkSizes, handles[..], i))
      {
        ghost var hs := handles[..];
        var status, handle := MemCreate(chunkSizes[i]);
        if status == 0 { handles[i] := handle; }
        Check(status);
        AllOkOne(statusOf, calls - 1);
        AllOkOne(statusOf, calls);
        AllOkSplit(statusOf, old(calls), calls - 1, calls);
        if errorCode != 0 {
          NothingOwned(mem, handles[..], chunkSizes);
          if i == 0 { NothingOwned(old(mem), hs, chunkSizes); }
          assert handles[..] == if status == 0 then hs[i := handle] else hs;
          RollBackCreate(handles, chunkSizes, i, if i == 0 then mem else old(mem));
          return;
        }
        OwnedStep(old(mem), hs, handles[..], chunkSizes, i);
        i, f := i + 1, f + 1;
      }
    }

    /** Undoes the first `count` mappings and all creates. */
    method RollBackMap(dMem: nat, handles: array<nat>, chunkSizes: seq<nat>, count: nat, ghost before: Memory)
      requires count <= handles.Length == |chunkSizes| && Positive(chunkSizes)
      requires FreshPrefix(before, handles[..], |chunkSizes|)
      requires 0 < count ==> Sound(before) && RangeClear(before, dMem, Offset(chunkSizes, |chunkSizes|))
      requires mem == PartlyMapped(before, dMem, chunkSizes, handles[..], count)
      modifies this`mem, this`calls
      ensures calls == old(calls) + count + |chunkSizes| && mem.reserved == before.reserved
      ensures mem == before <==> AllOk(statusOf, old(calls), calls)
    {
      hide *;
      ghost var hs := handles[..];
      MappingsRolledBack(before, dMem, chunkSizes, hs, count, statusOf, calls);
      var _ := UnmapChunks(dMem, chunkSizes, count, 0);
      var _ := ReleaseHandles(handles, |chunkSizes|, 0);
      AllOkSplit(statusOf, old(calls), old(calls) + count, calls);
    }

    /** Maps chunk `i` behind the chunks before it; the driver refuses the call only where something is mapped already. */
    method MapNext(dMem: nat, handles: array<nat>, chunkSizes: seq<nat>, i: nat, allocatedSize: nat, ghost before: Memory)
      requires i < handles.Length == |chunkSizes| && Positive(chunkSizes) && errorCode == 0
      requires FreshPrefix(before, handles[..], |chunkSizes|)
      requires Vacant(before, dMem, Offset(chunkSizes, |chunkSizes|)) || (i == 0 && Taken(before, dMem, chunkSizes[0]))
      requires allocatedSize == Offset(chunkSizes, i) && mem == PartlyMapped(before, dMem, chunkSizes, handles[..], i)
      modifies this`mem, this`calls, this`errorCode
      ensures calls == old(calls) + 1
      ensures errorCode == if i == 0 && Taken(before, dMem, chunkSizes[0]) then FailureOf(statusOf(old(calls)))
                           else statusOf(old(calls))
      ensures mem == PartlyMapped(before, dMem, chunkSizes, handles[..], if errorCode == 0 then i + 1 else i)
    {
      hide Taken, Vacant, FreshPrefix, MapLegal, Positive;
      ghost var hs := handles[..];
      MapStepLegalIff(before, dMem, chunkSizes, hs, i);
      var status := MemMap(dMem + allocatedSize, chunkSizes[i], handles[i]);
      Check(status);
      assert handles[..] == hs;
      assert status == 0 ==> mem == PartlyMapped(before, dMem, chunkSizes, hs, i + 1);
    }

    /**
     The map loop: chunks are mapped back to back, and a failed map is rolled back.  On a range whose beginning
     is mapped already the first map fails.
     */
    method MapChunks(dMem: nat, handles: array<nat>, chunkSizes: seq<nat>, ghost before: Memory) returns (ghost f: nat)
      requires handles.Length == |chunkSizes| && Positive(chunkSizes) && errorCode == 0
      requires FreshPrefix(before, handles[..], |chunkSizes|)
      requires mem == PartlyMapped(before, dMem, chunkSizes, handles[..], 0)
      requires Vacant(before, dMem, Offset(chunkSizes, |chunkSizes|)) || Occupied(before, dMem, chunkSizes)
      modifies this`mem, this`calls, this`errorCode
      ensures f <= |chunkSizes| && AllOk(statusOf, old(calls), old(calls) + f)
      ensures f < |chunkSizes| ==> mem.reserved == before.reserved
      ensures Occupied(before, dMem, chunkSizes) ==> f == 0
      ensures f < |chunkSizes| ==>
                && errorCode == FailureOf(statusOf(old(calls) + f)) && calls == old(calls) + f + 1 + f + |chunkSizes|
                && (!Occupied(before, dMem, chunkSizes) ==> statusOf(old(calls) + f) != 0)
                && (mem == before <==> AllOk(statusOf, old(calls) + f + 1, calls))
      ensures f == |chunkSizes| ==>
                && errorCode == 0 && calls == old(calls) + f
                && mem == PartlyMapped(before, dMem, chunkSizes, handles[..], f)
    {
      hide Sound, RangeClear, RangeReserved, FreshPrefix, Positive, Taken;
      f := 0;
      ghost var hs := handles[..];
      var allocatedSize := 0;
      var i := 0;
      while i < |chunkSizes|
        invariant 0 <= i == f <= |chunkSizes| && errorCode == 0 && allocatedSize == Offset(chunkSizes, i)
        invariant 0 < i ==> !Occupied(before, dMem, chunkSizes)
        invariant calls == old(calls) + i && AllOk(statusOf, old(calls), calls)
        invariant mem == PartlyMapped(before, dMem, chunkSizes, hs, i)
      {
        MapNext(dMem, handles, chunkSizes, i, allocatedSize, before);
        if errorCode != 0 {
          RollBackMap(dMem, handles, chunkSizes, i, before);
          return;
        }
        allocatedSize := allocatedSize + chunkSizes[i];
        i, f := i + 1, f + 1;
      }
    }

    /** The part of `create_and_map` after the creates: the map loop and the access call. */
    method MapAndSetAccess(size: nat, dMem: nat, handles: array<nat>, chunkSizes: seq<nat>, ghost before: Memory)
      returns (ghost f: nat)
      requires handles.Length == |chunkSizes| && Positive(chunkSizes) && errorCode == 0
      requires FreshPrefix(before, handles[..], |chunkSizes|)
      requires mem == PartlyMapped(before, dMem, chunkSizes, handles[..], 0)
      requires Offset(chunkSizes, |chunkSizes|) <= size
      requires Vacant(before, dMem, size) || Occupied(before, dMem, chunkSizes)
      modifies this`mem, this`calls, this`errorCode
      ensures mem.reserved == before.reserved
      ensures Occupied(before, dMem, chunkSizes) ==> f == 0
      ensures f <= |chunkSizes| + 1 && AllOk(statusOf, old(calls), old(calls) + f)
      ensures errorCode == (if f <= |chunkSizes| then FailureOf(statusOf(old(calls) + f)) else 0)
      ensures f < |chunkSizes| ==>
                && (!Occupied(before, dMem, chunkSizes) ==> statusOf(old(calls) + f) != 0) && old(calls) + f < calls
                && (mem == before <==> AllOk(statusOf, old(calls) + f + 1, calls))
      ensures f >= |chunkSizes| ==>
                calls == old(calls) + |chunkSizes| + 1 && mem == Awake(before, dMem, chunkSizes, handles[..])
      ensures f == |chunkSizes| ==> statusOf(old(calls) + f) != 0 || Offset(chunkSizes, |chunkSizes|) < size
      ensures f > |chunkSizes| ==> Offset(chunkSizes, |chunkSizes|) == size
    {
      hide Vacant, Occupied, FreshPrefix, AccessLegal, Positive, Offset;
      MapsAndAccess(before, dMem, size, chunkSizes, handles[..]);
      f := MapChunks(dMem, handles, chunkSizes, before);
      if errorCode == 0 {
        PartlyMappedIs(before, dMem, chunkSizes, handles[..], |chunkSizes|);
        var status := SetAccess(dMem, size);
        Check(status);
        if status == 0 { f := f + 1; }
      }
    }

    /**
     `create_and_map`.  With no error pending, call number `f` counted from the entry is the first
     to fail: the creates are calls 0 to n-1, the maps n to 2n-1, and the access call is 2n.
     Either every chunk ends up mapped back to back from `dMem`, or a create or map failed and the
     memory is what it was, exactly when no rollback call failed.  A failed access call
     rolls nothing back; the driver refuses it exactly when the chunks do not fill the range.
     On a range whose beginning is mapped already, the first map fails at the latest; by then the creates have
     replaced the handles that were stored.
     With an error pending, the first create is taken for a failure and its handle is lost.
     */
    method CreateAndMap(size: nat, dMem: nat, handles: array<nat>, chunkSizes: seq<nat>) returns (ghost f: nat)
      requires handles.Length == |chunkSizes| && Positive(chunkSizes) && Offset(chunkSizes, |chunkSizes|) <= size
      requires Vacant(mem, dMem, size) || Occupied(mem, dMem, chunkSizes)
      modifies this`mem, this`calls, this`errorCode, handles
      ensures mem.reserved == old(mem.reserved) && old(calls) <= calls
      ensures old(errorCode) == 0 ==>
                && f <= 2 * |chunkSizes| + 1 && AllOk(statusOf, old(calls), old(calls) + f)
                && errorCode == (if f <= 2 * |chunkSizes| then FailureOf(statusOf(old(calls) + f)) else 0)
      ensures old(errorCode) == 0 && f < 2 * |chunkSizes| ==>
                && (f != |chunkSizes| || !Occupied(old(mem), dMem, chunkSizes) ==> statusOf(old(calls) + f) != 0)
                && old(calls) + f < calls
                && (mem == old(mem) <==> AllOk(statusOf, old(calls) + f + 1, calls))
      ensures old(errorCode) == 0 && Occupied(old(mem), dMem, chunkSizes) ==> f <= |chunkSizes|
      ensures old(errorCode) == 0 && f >= |chunkSizes| ==> FreshPrefix(old(mem), handles[..], |chunkSizes|)
      ensures old(errorCode) == 0 && f >= 2 * |chunkSizes| ==>
                && calls == old(calls) + 2 * |chunkSizes| + 1
                && mem == Awake(old(mem), dMem, chunkSizes, handles[..])
      ensures old(errorCode) == 0 && f == 2 * |chunkSizes| ==>
                statusOf(old(calls) + f) != 0 || Offset(chunkSizes, |chunkSizes|) < size
      ensures old(errorCode) == 0 && f > 2 * |chunkSizes| ==> Offset(chunkSizes, |chunkSizes|) == size
      ensures old(errorCode) != 0 ==>
                && errorCode != 0
                && (chunkSizes != [] && statusOf(old(calls)) == 0 ==> handles[0] !in old(mem.live))
                && mem == if chunkSizes == [] || statusOf(old(calls)) != 0 then old(mem)
                          else old(mem).(live := old(mem.live)[handles[0] := chunkSizes[0]])
    {
      hide Vacant, Occupied, FreshPrefix, Positive, Awake, AccessLegal;
      f := CreateChunks(handles, chunkSizes);
      if errorCode == 0 {
        ghost var g := MapAndSetAccess(size, dMem, handles, chunkSizes, old(mem));
        f := f + g;
      } else if |chunkSizes| == 0 {
        var status := SetAccess(dMem, size);
        Check(status);
      }
    }

    // ----- unmap_and_release

    /** Tries every unmap and every release. */
    method ReleaseChunks(dMem: nat, handles: array<nat>, chunkSizes: seq<nat>) returns (firstError: int)
      requires handles.Length == |chunkSizes|
      modifies this`mem, this`calls
      ensures calls == old(calls) + 2 * |chunkSizes|
      ensures (mem, firstError) == ReleaseAll(old(mem), dMem, chunkSizes, handles[..], statusOf, old(calls))
    {
      hide UnmapRun, ReleaseRun;
      firstError := UnmapChunks(dMem, chunkSizes, |chunkSizes|, 0);
      firstError := ReleaseHandles(handles, |chunkSizes|, firstError);
    }

    /** Gives the address range back and reserves it again. */
    method CycleReservation(dMem: nat, size: nat) returns (firstError: int, moved: bool)
      modifies this`mem, this`calls
      ensures mem == Cycled(old(mem), statusOf, placeOf, old(calls), dMem, size)
      ensures match CycleOutcome(old(mem), statusOf, placeOf, old(calls), dMem, size)
              case FreeRefused => firstError == FailureOf(statusOf(old(calls))) && !moved && calls == old(calls) + 1
              case ReserveRefused => firstError == FailureOf(statusOf(old(calls) + 1)) && !moved && calls == old(calls) + 2
              case Kept => firstError == 0 && !moved && calls == old(calls) + 2
              case Moved => moved && calls == old(calls) + 3
    {
      moved := false;
      firstError := AddressFree(dMem, size);
      if firstError == 0 {
        var dMemNew;
        firstError, dMemNew := AddressReserve(size);
        if firstError == 0 {
          if dMemNew != dMem {
            assert (mem.reserved - {dMemNew}) == old(mem.reserved) - {dMem};
            var _ := AddressFree(dMemNew, size);
            moved := true;
          } else {
            assert (old(mem.reserved) - {dMem})[dMem := size] == old(mem.reserved);
          }
        }
      }
    }

    /**
     `unmap_and_release`, on any memory.  The first failure of an unmap or a release is reported.  Only when all
     of them succeed is the address range given back and reserved again.
     */
    method UnmapAndRelease(size: nat, dMem: nat, handles: array<nat>, chunkSizes: seq<nat>)
      requires handles.Length == |chunkSizes|
      modifies this`mem, this`calls, this`errorCode
      ensures var (m, error) := ReleaseAll(old(mem), dMem, chunkSizes, handles[..], statusOf, old(calls));
              var cycle := old(calls) + 2 * |chunkSizes|;
              if error != 0 then
                errorCode == error && mem == m && calls == cycle
              else
                && mem == Cycled(m, statusOf, placeOf, cycle, dMem, size)
                && match CycleOutcome(m, statusOf, placeOf, cycle, dMem, size)
                   case FreeRefused => errorCode == FailureOf(statusOf(cycle)) && calls == cycle + 1
                   case ReserveRefused => errorCode == FailureOf(statusOf(cycle + 1)) && calls == cycle + 2
                   case Kept => errorCode == old(errorCode) && calls == cycle + 2
                   case Moved => errorCode == INVALID_VALUE && calls == cycle + 3
    {
      hide ReleaseAll, CycleOutcome, Cycled;
      var firstError := ReleaseChunks(dMem, handles, chunkSizes);
      if firstError == 0 {
        var moved;
        firstError, moved := CycleReservation(dMem, size);
        if moved {
          errorCode := INVALID_VALUE;
          return;
        }
      }
      Check(firstError);
    }

    // ----- my_malloc and my_free

    /** Backs a new reservation with memory, or gives it back. */
    method Back(dMem: nat, alignedSize: nat, handles: array<nat>, chunkSizes: seq<nat>, ghost before: Memory)
      returns (ghost failed: nat)
      requires handles.Length == |chunkSizes| && Positive(chunkSizes) && Offset(chunkSizes, |chunkSizes|) <= alignedSize
      requires Sound(before) && ReserveLegal(before, dMem, alignedSize) && mem == Reserve(before, dMem, alignedSize)
      requires errorCode == 0
      modifies this`mem, this`calls, this`errorCode, handles
      ensures old(calls) <= calls
      ensures errorCode == 0 <==>
                && AllOk(statusOf, old(calls), old(calls) + 2 * |chunkSizes| + 1)
                && Offset(chunkSizes, |chunkSizes|) == alignedSize
      ensures errorCode == 0 ==>
                && calls == old(calls) + 2 * |chunkSizes| + 1
                && Allocated(before, dMem, alignedSize, chunkSizes, handles[..])
                && mem == Awake(Reserve(before, dMem, alignedSize), dMem, chunkSizes, handles[..])
      ensures errorCode != 0 ==>
                && old(calls) <= failed < calls && AllOk(statusOf, old(calls), failed)
                && FailureLeaves(statusOf, failed, calls, chunkSizes != [] && failed == old(calls) + 2 * |chunkSizes|,
                                 before, Awake(Reserve(before, dMem, alignedSize), dMem, chunkSizes, handles[..]), mem)
    {
      ReserveSound(before, dMem, alignedSize);
      VacantIsNotOccupied(Reserve(before, dMem, alignedSize), dMem, alignedSize, chunkSizes);
      hide ReserveLegal, Vacant, Occupied, RangeClear, FreeLegal, Awake, AllOk, Sound, Offset, Positive;
      failed := CreateAndMap(alignedSize, dMem, handles, chunkSizes);
      failed := old(calls) + failed;
      AllOkOne(statusOf, failed);
      if errorCode != 0 {
        ghost var end := old(calls) + 2 * |chunkSizes| + 1;
        AllOkSplit(statusOf, old(calls), failed, end);
        AllOkSplit(statusOf, failed, failed + 1, end);
        AllOkSplit(statusOf, failed + 1, calls, calls + 1);
        AllOkOne(statusOf, calls);
        AllOkOne(statusOf, failed + 1);
        if chunkSizes == [] {
          assert handles[..] == [];
          AwakeEmpty(Reserve(before, dMem, alignedSize), dMem);
        }
        if chunkSizes != [] && failed == old(calls) + 2 * |chunkSizes| {
          AwakeNotFree(Reserve(before, dMem, alignedSize), dMem, alignedSize, chunkSizes, handles[..]);
        }
        var status := AddressFree(dMem, alignedSize);
        Check(status);
      }
    }

    /** The first two calls of `my_malloc`: the granularity and the reservation. */
    method ReserveRange(alignedSize: nat) returns (ok: bool, dMem: nat)
      modifies this`mem, this`calls, this`errorCode
      ensures dMem == placeOf(old(calls) + 1)
      ensures ok <==>
                && old(errorCode) == 0 && statusOf(old(calls)) == 0 && statusOf(old(calls) + 1) == 0
                && ReserveLegal(old(mem), dMem, alignedSize)
      ensures AllOk(statusOf, old(calls), old(calls) + 2) <==> statusOf(old(calls)) == 0 && statusOf(old(calls) + 1) == 0
      ensures ok ==> 0 < dMem && calls == old(calls) + 2 && errorCode == 0 && mem == Reserve(old(mem), dMem, alignedSize)
      ensures !ok ==> errorCode != 0 && mem == old(mem)
      ensures !ok && old(errorCode) == 0 ==>
                && old(calls) < calls <= old(calls) + 2 && AllOk(statusOf, old(calls), calls - 1)
      ensures old(calls) < calls
    {
      ok, dMem := false, placeOf(calls + 1);
      var status := GetGranularity();
      Check(status);
      if errorCode != 0 { return; }
      status, dMem := AddressReserve(alignedSize);
      Check(status);
      ok := errorCode == 0;
    }

    /**
     `my_malloc`, with the chunk-size variable and whether the Python callback accepts the allocation.  It succeeds
     exactly when no error is pending, the callback accepts, the driver's place is legal, no call fails and
     the chunk plan does not wrap around.  `failed` is the number of the call that made it fail.
     A refused callback keeps the new reservation; a failed access call keeps everything;
     any other failure leaves the memory as it was exactly when no clean-up call fails.
     */
    method MyMalloc(size: nat, env: ChunkSizeEnv, callbackOk: bool)
      returns (ptr: nat, alignedSize: nat, handles: array<nat>, chunkSizes: seq<nat>, ghost failed: nat)
      requires 0 < granularity && size + granularity - 1 < TWO_64
      requires (env.Parsed? ==> env.megabytes < TWO_64) && ConfiguredChunkSize(env) + granularity - 1 < TWO_64
      requires Sound(mem)
      modifies this`mem, this`calls, this`errorCode
      ensures fresh(handles) && handles.Length == |chunkSizes| && alignedSize == RoundUp(size, granularity)
      ensures old(calls) < calls
      ensures old(errorCode) != 0 ==> ptr == 0 && errorCode != 0 && mem == old(mem)
      ensures var chunk := RoundUp(ConfiguredChunkSize(env), granularity);
              ptr != 0 <==>
                && old(errorCode) == 0 && callbackOk && ReserveLegal(old(mem), placeOf(old(calls) + 1), alignedSize)
                && AllOk(statusOf, old(calls), old(calls) + 2 * NumChunks(alignedSize, chunk) + 3)
                && alignedSize + chunk - 1 < TWO_64
      ensures ptr != 0 ==>
                && errorCode == 0 && ptr == placeOf(old(calls) + 1)
                && |chunkSizes| == NumChunks(alignedSize, RoundUp(ConfiguredChunkSize(env), granularity))
                && calls == old(calls) + 2 * |chunkSizes| + 3
                && Allocated(old(mem), ptr, alignedSize, chunkSizes, handles[..])
                && mem == Awake(Reserve(old(mem), ptr, alignedSize), ptr, chunkSizes, handles[..])
                && IsPlan(chunkSizes, alignedSize, RoundUp(ConfiguredChunkSize(env), granularity), granularity)
      ensures old(errorCode) == 0 && !callbackOk ==>
                var c := old(calls);
                mem == if statusOf(c) == 0 && statusOf(c + 1) == 0 && ReserveLegal(old(mem), placeOf(c + 1), alignedSize)
                       then Reserve(old(mem), placeOf(c + 1), alignedSize) else old(mem)
      ensures ptr == 0 && old(errorCode) == 0 && callbackOk ==>
                && errorCode != 0 && old(calls) <= failed < calls && AllOk(statusOf, old(calls), failed)
                && var p := placeOf(old(calls) + 1);
                   FailureLeaves(statusOf, failed, calls, chunkSizes != [] && failed == old(calls) + 2 + 2 * |chunkSizes|,
                                 old(mem), Awake(Reserve(old(mem), p, alignedSize), p, chunkSizes, handles[..]), mem)
    {
      hide Sound, ReserveLegal, Allocated, Awake, ConfiguredChunkSize, IsPlan, AllOk;
      hide RoundUp, AlignUp64, Offset, FailureLeaves, NumChunks;
      ptr, chunkSizes, failed := 0, [], calls;
      handles := new nat[0];
      alignedSize := AlignUp64(size, granularity);
      var ok, dMem := ReserveRange(alignedSize);
      AllOkSplit(statusOf, old(calls), old(calls) + 2,
                 old(calls) + 2 * NumChunks(alignedSize, RoundUp(ConfiguredChunkSize(env), granularity)) + 3);
      if !ok {
        failed := calls - 1;
        AllOkOne(statusOf, calls);
        assert old(errorCode) == 0 ==> AllOk(statusOf, old(calls), failed);
        NothingToCleanUp(statusOf, failed, mem, Awake(Reserve(mem, dMem, alignedSize), dMem, chunkSizes, handles[..]));
        return;
      }
      chunkSizes := PlanAllocation(alignedSize, ConfiguredChunkSize(env), granularity);
      handles := new nat[|chunkSizes|];
      if !callbackOk { return; }
      AllOkSplit(statusOf, old(calls), calls, calls + 2 * |chunkSizes| + 1);
      failed := Back(dMem, alignedSize, handles, chunkSizes, old(mem));
      if errorCode != 0 {
        AllOkSplit(statusOf, old(calls), old(calls) + 2, failed);
        assert AllOk(statusOf, old(calls), failed);
      }
      if errorCode == 0 { ptr := dMem; }
    }

    /** The body of `my_free`, on any memory: releases the chunks, cycles the range and gives it back. */
    method FreeRange(ptr: nat, size: nat, handles: array<nat>, chunkSizes: seq<nat>)
      requires handles.Length == |chunkSizes|
      modifies this`mem, this`calls, this`errorCode
      ensures var (m, error) := ReleaseAll(old(mem), ptr, chunkSizes, handles[..], statusOf, old(calls));
              var cycle := old(calls) + 2 * |chunkSizes|;
              && mem == Freed(m, error, statusOf, placeOf, cycle, ptr, size)
              && (errorCode == 0 <==> old(errorCode) == 0 && FreedCleanly(m, error, statusOf, placeOf, cycle, ptr, size))
              && (FreedCleanly(m, error, statusOf, placeOf, cycle, ptr, size) ==> calls == cycle + 3)
      ensures old(calls) < calls
    {
      hide ReleaseAll;
      UnmapAndRelease(size, ptr, handles, chunkSizes);
      var status := AddressFree(ptr, size);
      Check(status);
    }

    /**
     `my_free` hands the requested size, not the aligned one, to the driver.  For an allocation that is backed, as
     `my_malloc` leaves it, it restores the memory from before exactly when the two sizes agree, every unmap and
     release succeeds and the range is finally given back; with a different size the range stays reserved whatever
     the driver answers.  No error is left exactly when none was pending, the sizes agree, no call fails and the
     driver offers the same place again.  For one that sleeps only the last free can change anything, and an error is left.
     */
    method MyFree(ptr: nat, size: nat, handles: array<nat>, chunkSizes: seq<nat>, ghost alignedSize: nat, ghost before: Memory)
      requires handles.Length == |chunkSizes|
      modifies this`mem, this`calls, this`errorCode
      ensures old(IsMade(before, ptr, alignedSize, chunkSizes, handles[..], mem)) ==>
                && (mem == before <==>
                      && size == alignedSize
                      && FirstError(statusOf, old(calls), 2 * |chunkSizes|) == 0
                      && GivenBack(Reserve(before, ptr, alignedSize), statusOf, placeOf, old(calls) + 2 * |chunkSizes|, ptr, size))
                && (size != alignedSize ==>
                      && mem.reserved == Reserve(before, ptr, alignedSize).reserved
                      && (mem == Reserve(before, ptr, alignedSize) <==>
                            FirstError(statusOf, old(calls), 2 * |chunkSizes|) == 0))
                && (errorCode == 0 <==>
                      && old(errorCode) == 0 && size == alignedSize
                      && AllOk(statusOf, old(calls), old(calls) + 2 * |chunkSizes| + 3)
                      && placeOf(old(calls) + 2 * |chunkSizes| + 1) == ptr && ReserveLegal(before, ptr, size))
                && (errorCode == 0 ==> calls == old(calls) + 2 * |chunkSizes| + 3)
      ensures old(calls) < calls
      ensures old(IsAsleep(mem, ptr, chunkSizes, handles[..])) ==>
                errorCode != 0 && mem == AfterFree(old(mem), statusOf(old(calls) + 2 * |chunkSizes|), ptr, size)
    {
      hide IsMade, IsAsleep, ReleaseAll, Freed, CycleOutcome, FirstError, GivenBack, AfterFree, Reserve, AllOk, ReserveLegal;
      if IsMade(before, ptr, alignedSize, chunkSizes, handles[..], mem) {
        MadeFreesCleanly(before, ptr, alignedSize, size, handles[..], chunkSizes, statusOf, placeOf, calls, mem);
        MadeReleaseAll(before, ptr, alignedSize, size, handles[..], chunkSizes, statusOf, placeOf, calls, mem);
      }
      if IsAsleep(mem, ptr, chunkSizes, handles[..]) {
        AsleepReleaseAll(mem, ptr, chunkSizes, handles[..], statusOf, calls);
        FreedAfterError(mem, FailureOf(statusOf(calls)), statusOf, placeOf, calls + 2 * |chunkSizes|, ptr, size);
      }
      FreeRange(ptr, size, handles, chunkSizes);
    }

    /**
     Without failing calls an allocation succeeds exactly when the driver's place is legal and the plan does
     not wrap around, and freeing it again leaves no trace exactly when the size is a multiple of the granularity.
     No error is left exactly when, moreover, the driver offers the same place again while the range is cycled.
     */
    method MallocThenFree(size: nat, env: ChunkSizeEnv) returns (ptr: nat)
      requires 0 < granularity && size + granularity - 1 < TWO_64
      requires (env.Parsed? ==> env.megabytes < TWO_64) && ConfiguredChunkSize(env) + granularity - 1 < TWO_64
      requires Sound(mem) && errorCode == 0 && forall c :: calls <= c ==> statusOf(c) == 0
      modifies this`mem, this`calls, this`errorCode
      ensures var alignedSize, chunk := RoundUp(size, granularity), RoundUp(ConfiguredChunkSize(env), granularity);
              ptr != 0 <==> ReserveLegal(old(mem), placeOf(old(calls) + 1), alignedSize) && alignedSize + chunk - 1 < TWO_64
      ensures ptr != 0 ==> (mem == old(mem) <==> size % granularity == 0)
      ensures ptr != 0 ==>
                var n := NumChunks(RoundUp(size, granularity), RoundUp(ConfiguredChunkSize(env), granularity));
                && ptr == placeOf(old(calls) + 1)
                && (errorCode == 0 <==> size % granularity == 0 && placeOf(old(calls) + 4 * n + 4) == ptr)
                && (errorCode == 0 ==> calls == old(calls) + 4 * n + 6)
      ensures ptr != 0 ==> mem.mapped == old(mem.mapped)
      ensures old(calls) <= calls
    {
      hide ReserveLegal, ConfiguredChunkSize, NumChunks, AllOk, IsPlan, Awake, GivenBack, FirstError, RoundUp;
      hide FailureLeaves, Sound, Allocated, IsMade, IsAsleep, Reserve;
      var alignedSize, handles, chunkSizes;
      ghost var failed;
      assert AllOk(statusOf, calls, calls + 2 * NumChunks(RoundUp(size, granularity), RoundUp(ConfiguredChunkSize(env), granularity)) + 3)
        by { QuietCalls(statusOf, calls, NumChunks(RoundUp(size, granularity), RoundUp(ConfiguredChunkSize(env), granularity))); }
      ptr, alignedSize, handles, chunkSizes, failed := MyMalloc(size, env, true);
      if ptr != 0 {
        QuietFree(old(mem), ptr, alignedSize, chunkSizes, handles[..], mem, statusOf, placeOf, calls, 2 * |chunkSizes|);
        MultipleIsAligned(size, granularity);
        MyFree(ptr, size, handles, chunkSizes, alignedSize, old(mem));
      }
    }

    /**
     So after an allocation that was made and freed, and without any failing driver call, the next one succeeds
     exactly when the first free left no error and the conditions of the first allocation hold for the next.
     */
    method MallocFreeMalloc(size: nat, env: ChunkSizeEnv, next: nat) returns (ptr: nat, nextPtr: nat)
      requires 0 < granularity && size + granularity - 1 < TWO_64 && next + granularity - 1 < TWO_64
      requires (env.Parsed? ==> env.megabytes < TWO_64) && ConfiguredChunkSize(env) + granularity - 1 < TWO_64
      requires Sound(mem) && errorCode == 0 && forall c :: calls <= c ==> statusOf(c) == 0
      modifies this`mem, this`calls, this`errorCode
      ensures ptr != 0 ==>
                var chunk := RoundUp(ConfiguredChunkSize(env), granularity);
                var n := NumChunks(RoundUp(size, granularity), chunk);
                nextPtr != 0 <==>
                  && size % granularity == 0 && placeOf(old(calls) + 4 * n + 4) == ptr
                  && ReserveLegal(old(mem), placeOf(old(calls) + 4 * n + 7), RoundUp(next, granularity))
                  && RoundUp(next, granularity) + chunk - 1 < TWO_64
    {
      hide ConfiguredChunkSize;
      nextPtr := 0;
      ptr := MallocThenFree(size, env);
      if ptr != 0 {
        var alignedSize, handles, chunkSizes;
        ghost var failed;
        nextPtr, alignedSize, handles, chunkSizes, failed := MyMalloc(next, env, true);
      }
    }
  }

  /** One byte, with a granularity of two megabytes and a driver that never fails: the range is never given back. */
  method OneByteLeaks() returns (al: Allocator, ptr: nat)
    ensures fresh(al) && ptr != 0 && al.mem != Memory(map[], map[], map[])
  {
    al := new Allocator(_ => 0, _ => 0x10_0000, 2 * MB);
    assert RoundUp(DEFAULT_CHUNK, 2 * MB) < DEFAULT_CHUNK + 2 * MB;
    ptr := al.MallocThenFree(1, Unset);
  }

  /** One byte, and a callback that refuses: the range stays reserved. */
  method RefusedCallbackLeaks() returns (al: Allocator, ptr: nat)
    ensures fresh(al) && ptr == 0 && al.mem == Memory(map[0x10_0000 := 2 * MB], map[], map[])
  {
    al := new Allocator(_ => 0, _ => 0x10_0000, 2 * MB);
    assert RoundUp(DEFAULT_CHUNK, 2 * MB) < DEFAULT_CHUNK + 2 * MB && RoundUp(1, 2 * MB) == 2 * MB;
    var alignedSize, handles, chunkSizes;
    ghost var failed;
    ptr, alignedSize, handles, chunkSizes, failed := al.MyMalloc(1, Unset, false);
    assert map[][0x10_0000 := 2 * MB] == map[0x10_0000 := 2 * MB];
  }

  /** One chunk of one byte on a reserved range, with an error pending: its handle is created and lost. */
  method PendingErrorLeaks() returns (al: Allocator)
    ensures fresh(al) && al.errorCode != 0 && |al.mem.live| == 1 && al.mem.mapped == map[]
  {
    al := new Allocator(_ => 0, _ => 0x10_0000, 1);
    al.mem := Memory(map[0x10_0000 := 1], map[], map[]);
    al.errorCode := INVALID_VALUE;
    var handles := new nat[1];
    assert Offset([1], 1) == Offset([1], 0) + 1;
    assert 0x10_0000 in al.mem.reserved;
    ghost var f := al.CreateAndMap(1, 0x10_0000, handles, [1]);
    assert al.mem.live == map[handles[0] := 1];
    assert al.mem.live.Keys == {handles[0]};
  }

  /** The first `k` handles are distinct and were not live before. */
  ghost predicate FreshPrefix(before: Memory, handles: seq<nat>, k: nat)
    requires k <= |handles|
  {
    Distinct(handles[..k]) && forall j :: 0 <= j < k ==> handles[j] !in before.live
  }

  lemma NothingOwned(m: Memory, handles: seq<nat>, sizes: seq<nat>)
    requires |handles| == |sizes|
    ensures FreshPrefix(m, handles, 0) && m == m.(live := m.live + Owned(sizes, handles, 0))
  {
    assert Owned(sizes, handles, 0) == map[];
    assert m.live + map[] == m.live;
  }

  /** One more handle is created and stored. */
  lemma OwnedStep(before: Memory, handles: seq<nat>, handles': seq<nat>, sizes: seq<nat>, k: nat)
    requires k < |handles| == |handles'| == |sizes| && FreshPrefix(before, handles, k)
    requires handles' == handles[k := handles'[k]] && handles'[k] !in before.live + Owned(sizes, handles, k)
    ensures FreshPrefix(before, handles', k + 1)
    ensures (before.live + Owned(sizes, handles, k))[handles'[k] := sizes[k]] == before.live + Owned(sizes, handles', k + 1)
  {
    TableIsPrefix(handles, sizes, k);
    assert handles[..k] == handles'[..k];
    TableAgree(handles, handles', sizes, k);
    assert handles'[..k + 1] == handles[..k] + [handles'[k]];
    assert handles'[k] !in handles[..k];
  }

  /** The memory with every handle created and the first `k` chunks mapped, one after the other. */
  ghost function PartlyMapped(before: Memory, dMem: nat, sizes: seq<nat>, handles: seq<nat>, k: nat): Memory
    requires k <= |sizes| == |handles|
  {
    if k == 0 then before.(live := before.live + Owned(sizes, handles, |sizes|))
    else
      var m := PartlyMapped(before, dMem, sizes, handles, k - 1);
      m.(mapped := m.mapped[dMem + Offset(sizes, k - 1) := Mapping(sizes[k - 1], handles[k - 1])])
  }

  lemma {:induction false} PartlyMappedIs(before: Memory, dMem: nat, sizes: seq<nat>, handles: seq<nat>, k: nat)
    requires k <= |sizes| == |handles|
    ensures PartlyMapped(before, dMem, sizes, handles, k)
         == before.(live := before.live + Owned(sizes, handles, |sizes|),
                    mapped := before.mapped + Layout(dMem, sizes, handles, k))
  {
    if k > 0 {
      PartlyMappedIs(before, dMem, sizes, handles, k - 1);
      var addr, mapping := dMem + Offset(sizes, k - 1), Mapping(sizes[k - 1], handles[k - 1]);
      AddThenUpdate(before.mapped, Layout(dMem, sizes, handles, k - 1), addr, mapping);
      assert Addrs(dMem, sizes)[k - 1] == addr && Mappings(sizes, handles)[k - 1] == mapping;
      assert Layout(dMem, sizes, handles, k) == Layout(dMem, sizes, handles, k - 1)[addr := mapping];
    }
  }

  lemma AddThenUpdate<V>(m: map<nat, V>, added: map<nat, V>, x: nat, v: V)
    ensures (m + added)[x := v] == m + added[x := v]
  {
  }

  /** The driver accepts the next mapping, unless something is mapped where the first chunk belongs. */
  lemma MapStepLegalIff(before: Memory, dMem: nat, sizes: seq<nat>, handles: seq<nat>, k: nat)
    requires k < |sizes| == |handles| && Positive(sizes) && FreshPrefix(before, handles, |sizes|)
    requires Vacant(before, dMem, Offset(sizes, |sizes|)) || (k == 0 && Taken(before, dMem, sizes[0]))
    ensures MapLegal(PartlyMapped(before, dMem, sizes, handles, k), dMem + Offset(sizes, k), sizes[k], handles[k])
       <==> !(k == 0 && Taken(before, dMem, sizes[0]))
  {
    if k == 0 && Taken(before, dMem, sizes[0]) {
      TakenIsRefused(before, dMem, sizes, handles);
    } else {
      MapStepLegal(before, dMem, sizes, handles, k);
    }
  }

  /** The driver accepts the next mapping. */
  lemma MapStepLegal(before: Memory, dMem: nat, sizes: seq<nat>, handles: seq<nat>, k: nat)
    requires k < |sizes| == |handles| && Positive(sizes) && FreshPrefix(before, handles, |sizes|)
    requires RangeReserved(before, dMem, Offset(sizes, |sizes|)) && RangeClear(before, dMem, Offset(sizes, |sizes|))
    ensures MapLegal(PartlyMapped(before, dMem, sizes, handles, k), dMem + Offset(sizes, k), sizes[k], handles[k])
  {
    PartlyMappedIs(before, dMem, sizes, handles, k);
    var created := before.(live := before.live + Owned(sizes, handles, |sizes|));
    assert handles[k] in created.live && created.live[handles[k]] == sizes[k] by {
      TableIsPrefix(handles, sizes, |sizes|);
    }
    NextMapLegal(created, dMem, sizes, handles, k);
  }

  /** The first `k` keys of a table when only those are known to be distinct. */
  lemma TableIsPrefix(keys: seq<nat>, values: seq<nat>, k: nat)
    requires k <= |keys| == |values| && Distinct(keys[..k])
    ensures forall x :: x in Table(keys, values, k) <==> x in keys[..k]
    ensures forall j :: 0 <= j < k ==> keys[j] in Table(keys, values, k) && Table(keys, values, k)[keys[j]] == values[j]
  {
    TableIs(keys[..k], values[..k], k);
    TablePrefix(keys, values, k, k);
    assert keys[..k][..k] == keys[..k];
    forall j | 0 <= j < k
      ensures keys[j] in Table(keys, values, k) && Table(keys, values, k)[keys[j]] == values[j]
    {
      assert keys[..k][j] == keys[j] && values[..k][j] == values[j];
    }
  }

  lemma {:induction false} TablePrefix(keys: seq<nat>, values: seq<nat>, n: nat, k: nat)
    requires k <= n <= |keys| == |values|
    ensures Table(keys[..n], values[..n], k) == Table(keys, values, k)
  {
    if k > 0 { TablePrefix(keys, values, n, k - 1); }
  }
}
