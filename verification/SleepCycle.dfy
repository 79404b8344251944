/**
 The allocator over whole runs: any number of allocations, made, put to sleep, woken and freed
 in any order.  `my_malloc` is a reserve step and a wake step, and only the first when the
 callback refuses; `my_free` is a sleep step and a drop step, and only the first when the
 sizes disagree.  A wake that failed and was rolled back changes nothing.
 */
module SleepCycle {
  import opened Arith
  import opened ChunkPlan
  import opened DeviceMemory
  import opened Allocator

  /** One allocation: its reserved range and its chunk sizes. */
  datatype Allocation = Allocation(base: nat, size: nat, chunks: seq<nat>)

  /** Reserved without memory, reserved and backed, or given back for good. */
  datatype Phase = Sleeping | Backed(handles: seq<nat>) | Gone

  datatype World = World(mem: Memory, allocs: seq<Allocation>, phases: seq<Phase>)

  predicate Separate(a: Allocation, b: Allocation) {
    Apart(a.base, a.size, b.base, b.size)
  }

  /** Allocation `i` still has its range. */
  predicate Held(w: World, i: nat) {
    i < |w.allocs| && i < |w.phases| && w.phases[i] != Gone
  }

  predicate IsAllocation(a: Allocation) {
    0 < a.base && 0 < a.size && Positive(a.chunks) && Offset(a.chunks, |a.chunks|) == a.size
  }

  ghost predicate WellFormed(w: World) {
    && |w.allocs| == |w.phases|
    && (forall i :: 0 <= i < |w.allocs| ==> IsAllocation(w.allocs[i]))
    && (forall i, j :: 0 <= i < |w.allocs| && 0 <= j < |w.allocs| && i != j && Held(w, i) && Held(w, j) ==>
          Separate(w.allocs[i], w.allocs[j]))
  }

  /** Chunk `j` of allocation `i` is what is mapped at `a`. */
  ghost predicate MappedBy(w: World, a: nat, i: nat, j: nat) {
    && i < |w.allocs| == |w.phases| && w.phases[i].Backed?
    && j < |w.allocs[i].chunks| == |w.phases[i].handles|
    && a == Addr(w.allocs[i].base, w.allocs[i].chunks, j)
    && a in w.mem.mapped && w.mem.mapped[a] == Mapping(w.allocs[i].chunks[j], w.phases[i].handles[j])
  }

  ghost predicate IsBase(w: World, b: nat, i: nat) {
    Held(w, i) && w.allocs[i].base == b
  }

  ghost predicate OwnsHandle(w: World, h: nat, i: nat) {
    i < |w.phases| && w.phases[i].Backed? && h in w.phases[i].handles
  }

  ghost predicate ReservedExactly(w: World) {
    && (forall i: nat :: Held(w, i) ==>
          w.allocs[i].base in w.mem.reserved && w.mem.reserved[w.allocs[i].base] == w.allocs[i].size)
    && (forall b :: b in w.mem.reserved ==> exists i: nat :: IsBase(w, b, i))
  }

  ghost predicate AllBacked(w: World)
    requires |w.allocs| == |w.phases|
  {
    forall i :: 0 <= i < |w.allocs| && w.phases[i].Backed? ==>
      IsAwake(w.mem, w.allocs[i].base, w.allocs[i].chunks, w.phases[i].handles)
  }

  ghost predicate MappedOnly(w: World) {
    forall a :: a in w.mem.mapped ==> exists i: nat, j: nat :: MappedBy(w, a, i, j)
  }

  ghost predicate LiveOnly(w: World) {
    && (forall h :: h in w.mem.live ==> exists i: nat :: OwnsHandle(w, h, i))
    && (forall h, i: nat, k: nat :: OwnsHandle(w, h, i) && OwnsHandle(w, h, k) ==> i == k)
  }

  /**
   The reservations are those of the allocations that are held; a backed allocation has all its chunks mapped
   with live handles of its own; nothing else is mapped and no other handle is live.
   */
  ghost predicate Inv(w: World) {
    && WellFormed(w)
    && ReservedExactly(w) && AllBacked(w) && MappedOnly(w) && LiveOnly(w)
  }

  datatype Event = Obtain(a: Allocation) | Sleep(i: nat) | Wake(i: nat, handles: seq<nat>) | Drop(i: nat) | FailedWake

  ghost predicate Step(w: World, w': World, e: Event) {
    && |w.allocs| == |w.phases|
    && match e
       case Obtain(a) =>
         && IsAllocation(a) && ReserveLegal(w.mem, a.base, a.size)
         && w' == World(Reserve(w.mem, a.base, a.size), w.allocs + [a], w.phases + [Sleeping])
       case Sleep(i) =>
         && i < |w.allocs| && w.phases[i].Backed?
         && w' == w.(mem := Unbacked(w.mem, w.allocs[i], w.phases[i].handles), phases := w.phases[i := Sleeping])
       case Wake(i, handles) =>
         && i < |w.allocs| && w.phases[i].Sleeping? && |handles| == |w.allocs[i].chunks|
         && FreshPrefix(w.mem, handles, |handles|)
         && w' == w.(mem := Awake(w.mem, w.allocs[i].base, w.allocs[i].chunks, handles),
                     phases := w.phases[i := Backed(handles)])
       case Drop(i) =>
         && i < |w.allocs| && w.phases[i].Sleeping?
         && w' == w.(mem := GivenUp(w.mem, w.allocs[i].base), phases := w.phases[i := Gone])
       case FailedWake => w' == w
  }

  /** The memory without a reservation. */
  function GivenUp(m: Memory, base: nat): Memory {
    m.(reserved := m.reserved - {base})
  }

  /** The memory without the chunks of one allocation. */
  ghost function Unbacked(m: Memory, a: Allocation, handles: seq<nat>): Memory {
    m.(mapped := m.mapped - (set x | x in Addrs(a.base, a.chunks)), live := m.live - (set h | h in handles))
  }

  // ----- what the invariant gives

  /** A chunk lies inside the range of its allocation. */
  lemma ChunkInside(a: Allocation, j: nat)
    requires Positive(a.chunks) && Offset(a.chunks, |a.chunks|) == a.size && j < |a.chunks|
    ensures a.base <= Addr(a.base, a.chunks, j)
    ensures Addr(a.base, a.chunks, j) + a.chunks[j] <= a.base + a.size
  {
    OffsetMonotone(a.chunks, j, |a.chunks|);
  }

  /** What is mapped outside allocation `i` does not meet its range; a sleeping range is clear. */
  lemma OthersApart(w: World, i: nat, a: nat)
    requires Inv(w) && Held(w, i) && a in w.mem.mapped
    requires w.phases[i].Backed? ==> a !in Addrs(w.allocs[i].base, w.allocs[i].chunks)
    ensures 0 < w.mem.mapped[a].size && Apart(a, w.mem.mapped[a].size, w.allocs[i].base, w.allocs[i].size)
  {
    var k: nat, j: nat :| MappedBy(w, a, k, j);
    ChunkInside(w.allocs[k], j);
    assert Addrs(w.allocs[k].base, w.allocs[k].chunks)[j] == a;
    assert Separate(w.allocs[k], w.allocs[i]);
  }

  /** In every state of a run a sleeping allocation can be woken: `CreateAndMap` may be called. */
  lemma SleepingIsClear(w: World, i: nat)
    requires Inv(w) && i < |w.allocs| && w.phases[i].Sleeping?
    ensures Sound(w.mem) && RangeClear(w.mem, w.allocs[i].base, w.allocs[i].size)
    ensures Vacant(w.mem, w.allocs[i].base, w.allocs[i].size) && IsAllocation(w.allocs[i])
    ensures !Occupied(w.mem, w.allocs[i].base, w.allocs[i].chunks)
    ensures |w.allocs| == |w.phases|
  {
    forall a | a in w.mem.mapped
      ensures 0 < w.mem.mapped[a].size && Apart(a, w.mem.mapped[a].size, w.allocs[i].base, w.allocs[i].size)
    {
      OthersApart(w, i, a);
    }
    VacantIsNotOccupied(w.mem, w.allocs[i].base, w.allocs[i].size, w.allocs[i].chunks);
  }

  // ----- every step keeps the invariant

  /** Chunks of different allocations have different addresses. */
  lemma AddrsDiffer(w: World, i: nat, k: nat, j: nat)
    requires WellFormed(w) && Held(w, i) && Held(w, k) && i != k && j < |w.allocs[k].chunks|
    ensures Addr(w.allocs[k].base, w.allocs[k].chunks, j) !in Addrs(w.allocs[i].base, w.allocs[i].chunks)
  {
    ChunkInside(w.allocs[k], j);
    assert Separate(w.allocs[k], w.allocs[i]);
    forall l | 0 <= l < |w.allocs[i].chunks|
      ensures Addrs(w.allocs[i].base, w.allocs[i].chunks)[l] != Addr(w.allocs[k].base, w.allocs[k].chunks, j)
    {
      ChunkInside(w.allocs[i], l);
    }
  }

  lemma SleepKeepsBacked(w: World, w': World, i: nat)
    requires Inv(w) && Step(w, w', Sleep(i))
    ensures AllBacked(w')
  {
    forall k | 0 <= k < |w.allocs| && w'.phases[k].Backed?
      ensures IsAwake(w'.mem, w.allocs[k].base, w.allocs[k].chunks, w.phases[k].handles)
    {
      var a, hs := w.allocs[k], w.phases[k].handles;
      forall j | 0 <= j < |a.chunks|
        ensures ChunkAwake(w'.mem, a.base, a.chunks, hs, j)
      {
        assert ChunkAwake(w.mem, a.base, a.chunks, hs, j);
        AddrsDiffer(w, i, k, j);
        assert OwnsHandle(w, hs[j], k);
        assert !OwnsHandle(w, hs[j], i);
      }
    }
  }

  lemma SleepKeepsMapped(w: World, w': World, i: nat)
    requires Inv(w) && Step(w, w', Sleep(i))
    ensures MappedOnly(w')
  {
    forall a | a in w'.mem.mapped
      ensures exists k: nat, j: nat :: MappedBy(w', a, k, j)
    {
      var k: nat, j: nat :| MappedBy(w, a, k, j);
      assert Addrs(w.allocs[k].base, w.allocs[k].chunks)[j] == a;
      assert MappedBy(w', a, k, j);
    }
  }

  lemma SleepKeepsLive(w: World, w': World, i: nat)
    requires Inv(w) && Step(w, w', Sleep(i))
    ensures LiveOnly(w')
  {
    forall h | h in w'.mem.live
      ensures exists k: nat :: OwnsHandle(w', h, k)
    {
      var k: nat :| OwnsHandle(w, h, k);
      assert OwnsHandle(w', h, k);
    }
    forall h, k: nat, l: nat | OwnsHandle(w', h, k) && OwnsHandle(w', h, l)
      ensures k == l
    {
      assert OwnsHandle(w, h, k) && OwnsHandle(w, h, l);
    }
  }

  lemma WakeKeepsBacked(w: World, w': World, i: nat, handles: seq<nat>)
    requires Inv(w) && Step(w, w', Wake(i, handles))
    ensures AllBacked(w')
  {
    var b := w.allocs[i];
    assert handles[..|handles|] == handles;
    AwakeIs(w.mem, b.base, b.chunks, handles);
    SleepingIsClear(w, i);
    AddrsUnused(w.mem, b.base, b.chunks, handles, |b.chunks|);
    TableIs(handles, b.chunks, |b.chunks|);
    forall k | 0 <= k < |w.allocs| && k != i && w.phases[k].Backed?
      ensures IsAwake(w'.mem, w.allocs[k].base, w.allocs[k].chunks, w.phases[k].handles)
    {
      var a, hs := w.allocs[k], w.phases[k].handles;
      forall j | 0 <= j < |a.chunks|
        ensures ChunkAwake(w'.mem, a.base, a.chunks, hs, j)
      {
        assert ChunkAwake(w.mem, a.base, a.chunks, hs, j);
      }
    }
  }

  lemma WakeKeepsMapped(w: World, w': World, i: nat, handles: seq<nat>)
    requires Inv(w) && Step(w, w', Wake(i, handles))
    ensures MappedOnly(w')
  {
    var b := w.allocs[i];
    forall a | a in w'.mem.mapped
      ensures exists k: nat, j: nat :: MappedBy(w', a, k, j)
    {
      if a in Layout(b.base, b.chunks, handles, |b.chunks|) {
        var j := LayoutChunk(b.base, b.chunks, handles, |b.chunks|, a);
        assert MappedBy(w', a, i, j);
      } else {
        var k: nat, j: nat :| MappedBy(w, a, k, j);
        assert MappedBy(w', a, k, j);
      }
    }
  }

  lemma WakeKeepsLive(w: World, w': World, i: nat, handles: seq<nat>)
    requires Inv(w) && Step(w, w', Wake(i, handles))
    ensures LiveOnly(w')
  {
    assert handles[..|handles|] == handles;
    TableIs(handles, w.allocs[i].chunks, |handles|);
    forall h | h in w'.mem.live
      ensures exists k: nat :: OwnsHandle(w', h, k)
    {
      if h in handles {
        assert OwnsHandle(w', h, i);
      } else {
        var k: nat :| OwnsHandle(w, h, k);
        assert OwnsHandle(w', h, k);
      }
    }
    forall h, k: nat, l: nat | OwnsHandle(w', h, k) && OwnsHandle(w', h, l)
      ensures k == l
    {
      OwnedBefore(w, w', i, handles, h, k);
      OwnedBefore(w, w', i, handles, h, l);
    }
  }

  /** Another allocation's handle was owned before the wake, and it is not one of the fresh handles. */
  lemma OwnedBefore(w: World, w': World, i: nat, handles: seq<nat>, h: nat, k: nat)
    requires Inv(w) && Step(w, w', Wake(i, handles)) && OwnsHandle(w', h, k)
    ensures k != i ==> OwnsHandle(w, h, k) && h !in handles
    ensures k == i ==> h in handles
  {
    if k != i {
      assert OwnsHandle(w, h, k);
      var a, hs := w.allocs[k], w.phases[k].handles;
      var j :| 0 <= j < |hs| && hs[j] == h;
      assert ChunkAwake(w.mem, a.base, a.chunks, hs, j);
    }
  }

  /** A new reservation keeps clear of everything that is held. */
  lemma ObtainKeepsInv(w: World, w': World, a: Allocation)
    requires Inv(w) && Step(w, w', Obtain(a))
    ensures Inv(w')
  {
    var n := |w.allocs|;
    forall i: nat | Held(w', i)
      ensures i == n || (Held(w, i) && Separate(w.allocs[i], a) && w.allocs[i].base != a.base)
    {
      if i < n { assert Held(w, i); }
    }
    forall b | b in w'.mem.reserved
      ensures exists i: nat :: IsBase(w', b, i)
    {
      if b == a.base {
        assert IsBase(w', b, n);
      } else {
        var i: nat :| IsBase(w, b, i);
        assert IsBase(w', b, i);
      }
    }
    SameOwners(w, w');
  }

  /** Giving a sleeping range up takes nothing from the others. */
  lemma DropKeepsInv(w: World, w': World, i: nat)
    requires Inv(w) && Step(w, w', Drop(i))
    ensures Inv(w')
  {
    forall k: nat | Held(w', k)
      ensures Held(w, k) && k != i && w.allocs[k].base != w.allocs[i].base
    {
      assert Held(w, k) && Held(w, i);
      assert Separate(w.allocs[k], w.allocs[i]);
    }
    forall b | b in w'.mem.reserved
      ensures exists k: nat :: IsBase(w', b, k)
    {
      var k: nat :| IsBase(w, b, k);
      assert IsBase(w', b, k);
    }
    SameOwners(w, w');
  }

  /** A step that changes no mapping, no handle and no backed allocation keeps who owns what. */
  lemma SameOwners(w: World, w': World)
    requires |w.allocs| == |w.phases| && AllBacked(w) && MappedOnly(w) && LiveOnly(w) && |w'.allocs| == |w'.phases|
    requires w'.mem.mapped == w.mem.mapped && w'.mem.live == w.mem.live
    requires w.allocs <= w'.allocs
    requires forall i :: 0 <= i < |w.phases| && w.phases[i].Backed? ==> w'.phases[i] == w.phases[i]
    requires forall i :: 0 <= i < |w'.phases| && w'.phases[i].Backed? ==> i < |w.phases| && w.phases[i] == w'.phases[i]
    ensures AllBacked(w') && MappedOnly(w') && LiveOnly(w')
  {
    forall i | 0 <= i < |w'.allocs| && w'.phases[i].Backed?
      ensures IsAwake(w'.mem, w'.allocs[i].base, w'.allocs[i].chunks, w'.phases[i].handles)
    {
      var a, hs := w.allocs[i], w.phases[i].handles;
      forall j | 0 <= j < |a.chunks|
        ensures ChunkAwake(w'.mem, a.base, a.chunks, hs, j)
      {
        assert ChunkAwake(w.mem, a.base, a.chunks, hs, j);
      }
    }
    forall a | a in w'.mem.mapped
      ensures exists k: nat, j: nat :: MappedBy(w', a, k, j)
    {
      var k: nat, j: nat :| MappedBy(w, a, k, j);
      assert MappedBy(w', a, k, j);
    }
    forall h | h in w'.mem.live
      ensures exists k: nat :: OwnsHandle(w', h, k)
    {
      var k: nat :| OwnsHandle(w, h, k);
      assert OwnsHandle(w', h, k);
    }
    forall h, k: nat, l: nat | OwnsHandle(w', h, k) && OwnsHandle(w', h, l)
      ensures k == l
    {
      assert OwnsHandle(w, h, k) && OwnsHandle(w, h, l);
    }
  }

  /** Sleeping and waking keep the ranges and who holds them. */
  lemma SameRanges(w: World, w': World, i: nat, p: Phase)
    requires WellFormed(w) && ReservedExactly(w) && Held(w, i) && w'.mem.reserved == w.mem.reserved
    requires w'.allocs == w.allocs && w'.phases == w.phases[i := p] && p != Gone
    ensures WellFormed(w') && ReservedExactly(w')
  {
    forall k: nat
      ensures Held(w', k) <==> Held(w, k)
    {
    }
    forall b | b in w'.mem.reserved
      ensures exists k: nat :: IsBase(w', b, k)
    {
      var k: nat :| IsBase(w, b, k);
      assert IsBase(w', b, k);
    }
  }

  /** Every step keeps the invariant. */
  lemma StepKeepsInv(w: World, w': World, e: Event)
    requires Inv(w) && Step(w, w', e)
    ensures Inv(w')
  {
    match e
    case Obtain(a) => ObtainKeepsInv(w, w', a);
    case Drop(i) => DropKeepsInv(w, w', i);
    case Sleep(i) =>
      SameRanges(w, w', i, Sleeping);
      SleepKeepsBacked(w, w', i);
      SleepKeepsMapped(w, w', i);
      SleepKeepsLive(w, w', i);
    case Wake(i, handles) =>
      SameRanges(w, w', i, Backed(handles));
      WakeKeepsBacked(w, w', i, handles);
      WakeKeepsMapped(w, w', i, handles);
      WakeKeepsLive(w, w', i, handles);
    case FailedWake =>
  }

  // ----- whole runs

  /** A run starts with nothing reserved, live or mapped. */
  ghost predicate IsRun(run: seq<World>, events: seq<Event>) {
    && |run| == |events| + 1 && run[0] == World(Memory(map[], map[], map[]), [], [])
    && forall t :: 0 <= t < |events| ==> Step(run[t], run[t + 1], events[t])
  }

  lemma {:induction false} RunKeepsInv(run: seq<World>, events: seq<Event>, t: nat)
    requires IsRun(run, events) && t < |run|
    ensures Inv(run[t])
  {
    if t > 0 {
      RunKeepsInv(run, events, t - 1);
      assert Step(run[t - 1], run[t], events[t - 1]);
      StepKeepsInv(run[t - 1], run[t], events[t - 1]);
    }
  }

  /** An allocation keeps its index, its range and its chunks, and what is given back stays so. */
  lemma {:induction false} RunKeepsAllocations(run: seq<World>, events: seq<Event>, t: nat, u: nat)
    requires IsRun(run, events) && t <= u < |run|
    ensures run[t].allocs <= run[u].allocs && |run[t].phases| == |run[t].allocs| && |run[u].phases| == |run[u].allocs|
    ensures forall i :: 0 <= i < |run[t].phases| && run[t].phases[i] == Gone ==> run[u].phases[i] == Gone
    decreases u
  {
    RunKeepsInv(run, events, t);
    RunKeepsInv(run, events, u);
    if t < u {
      RunKeepsAllocations(run, events, t, u - 1);
      assert Step(run[u - 1], run[u], events[u - 1]);
    }
  }

  /** The sizes mapped inside a range, by address. */
  ghost function SizesIn(m: Memory, base: nat, size: nat): map<nat, nat> {
    map a | a in m.mapped && base <= a < base + size :: m.mapped[a].size
  }

  /** What is mapped inside the range of an allocation is one of its chunks. */
  lemma InsideIsChunk(w: World, i: nat, x: nat)
    requires Inv(w) && Held(w, i) && x in SizesIn(w.mem, w.allocs[i].base, w.allocs[i].size)
    ensures w.phases[i].Backed? && x in Addrs(w.allocs[i].base, w.allocs[i].chunks)
  {
    if w.phases[i].Sleeping? || x !in Addrs(w.allocs[i].base, w.allocs[i].chunks) { OthersApart(w, i, x); }
  }

  /** A chunk of a backed allocation is found at its address. */
  lemma ChunkIsInside(w: World, i: nat, j: nat)
    requires Inv(w) && i < |w.allocs| && w.phases[i].Backed? && j < |w.allocs[i].chunks|
    ensures var a := w.allocs[i];
            var x, sizes := Addrs(a.base, a.chunks)[j], SizesIn(w.mem, a.base, a.size);
            x in sizes && sizes[x] == a.chunks[j]
  {
    var a := w.allocs[i];
    assert ChunkAwake(w.mem, a.base, a.chunks, w.phases[i].handles, j);
    ChunkInside(a, j);
  }

  /** In any state, a backed range holds exactly its chunks and a sleeping range holds nothing. */
  lemma RangeContents(w: World, i: nat)
    requires Inv(w) && Held(w, i)
    ensures var a := w.allocs[i];
            SizesIn(w.mem, a.base, a.size)
            == if w.phases[i].Backed? then Table(Addrs(a.base, a.chunks), a.chunks, |a.chunks|) else map[]
  {
    var a := w.allocs[i];
    var addrs, sizes := Addrs(a.base, a.chunks), SizesIn(w.mem, a.base, a.size);
    forall x | x in sizes
      ensures w.phases[i].Backed? && x in addrs
    {
      InsideIsChunk(w, i, x);
    }
    if w.phases[i].Backed? {
      forall j | 0 <= j < |addrs|
        ensures addrs[j] in sizes && sizes[addrs[j]] == a.chunks[j]
      {
        ChunkIsInside(w, i, j);
      }
      AddrsDistinct(a.base, a.chunks);
      hide *;
      TableUnique(addrs, a.chunks, sizes);
    }
  }

  /**
   Over any run from the empty memory, with any allocations made, put to sleep, woken and freed in any
   order: as long as an allocation is held its range stays reserved, and at any two moments
   at which it is backed the same chunks lie at the same addresses of its range.
   */
  lemma RunKeepsLayout(run: seq<World>, events: seq<Event>, t: nat, u: nat, i: nat)
    requires IsRun(run, events) && t <= u < |run| && i < |run[t].allocs| && Held(run[u], i)
    ensures run[t].allocs <= run[u].allocs && Held(run[t], i)
    ensures var a := run[t].allocs[i];
            && a.base in run[t].mem.reserved && run[t].mem.reserved[a.base] == a.size
            && a.base in run[u].mem.reserved && run[u].mem.reserved[a.base] == a.size
            && (run[t].phases[i].Backed? == run[u].phases[i].Backed? ==>
                  SizesIn(run[t].mem, a.base, a.size) == SizesIn(run[u].mem, a.base, a.size))
            && (run[t].phases[i].Sleeping? ==> SizesIn(run[t].mem, a.base, a.size) == map[])
            && (run[t].phases[i].Backed? ==>
                  SizesIn(run[t].mem, a.base, a.size) == Table(Addrs(a.base, a.chunks), a.chunks, |a.chunks|))
  {
    RunKeepsInv(run, events, t);
    RunKeepsInv(run, events, u);
    RunKeepsAllocations(run, events, t, u);
    RangeContents(run[t], i);
    RangeContents(run[u], i);
  }

  /** Once everything is freed, nothing is left: no reservation, no handle, no mapping. */
  lemma RunLeavesNothing(run: seq<World>, events: seq<Event>, t: nat)
    requires IsRun(run, events) && t < |run| && forall i :: 0 <= i < |run[t].phases| ==> run[t].phases[i] == Gone
    ensures run[t].mem == Memory(map[], map[], map[])
  {
    RunKeepsInv(run, events, t);
    var w := run[t];
    assert forall i: nat :: !Held(w, i);
    assert w.mem.reserved == map[] && w.mem.live == map[] && w.mem.mapped == map[];
  }

  // ----- the steps are what the allocator does

  /**
   Putting a backed allocation to sleep without a failing call is a sleep step: the range is given
   back and, if the driver offers the same address again, reserved as before.
   */
  lemma UnmapAndReleaseSleeps(w: World, i: nat, statusOf: nat -> int, placeOf: nat -> nat, c: nat)
    requires Inv(w) && i < |w.allocs| && w.phases[i].Backed?
    requires var n := |w.allocs[i].chunks|;
             AllOk(statusOf, c, c + 2 * n + 2) && placeOf(c + 2 * n + 1) == w.allocs[i].base
    ensures var a, hs := w.allocs[i], w.phases[i].handles;
            && IsAwake(w.mem, a.base, a.chunks, hs)
            && var m := Released(w.mem, a.base, a.chunks, hs, statusOf, c);
               && CycleOutcome(m, statusOf, placeOf, c + 2 * |a.chunks|, a.base, a.size) == Kept
               && Step(w, w.(mem := m, phases := w.phases[i := Sleeping]), Sleep(i))
  {
    var a, hs := w.allocs[i], w.phases[i].handles;
    var n := |a.chunks|;
    assert statusOf(c + 2 * n) == 0 && statusOf(c + 2 * n + 1) == 0;
    ReleasedIsUnbacked(w.mem, a, hs, statusOf, c);
    var w' := w.(mem := Unbacked(w.mem, a, hs), phases := w.phases[i := Sleeping]);
    assert Step(w, w', Sleep(i));
    StepKeepsInv(w, w', Sleep(i));
    ReservableAgain(w', i);
  }

  lemma ReleasedIsUnbacked(m: Memory, a: Allocation, handles: seq<nat>, statusOf: nat -> int, c: nat)
    requires Positive(a.chunks) && Distinct(handles) && |handles| == |a.chunks|
    requires AllOk(statusOf, c, c + 2 * |a.chunks|)
    ensures Released(m, a.base, a.chunks, handles, statusOf, c) == Unbacked(m, a, handles)
  {
    AddrsDistinct(a.base, a.chunks);
    UndoneAll(Addrs(a.base, a.chunks), statusOf, c);
    UndoneAll(handles, statusOf, c + |handles|);
  }

  /** The range of a sleeping allocation can be given back and reserved again. */
  lemma ReservableAgain(w: World, i: nat)
    requires Inv(w) && i < |w.allocs| && w.phases[i].Sleeping?
    ensures FreeLegal(w.mem, w.allocs[i].base, w.allocs[i].size)
    ensures ReserveLegal(w.mem.(reserved := w.mem.reserved - {w.allocs[i].base}), w.allocs[i].base, w.allocs[i].size)
  {
    SleepingIsClear(w, i);
    forall b | b in w.mem.reserved && b != w.allocs[i].base
      ensures Apart(b, w.mem.reserved[b], w.allocs[i].base, w.allocs[i].size)
    {
      var k: nat :| IsBase(w, b, k);
      assert Separate(w.allocs[k], w.allocs[i]);
    }
  }

  /** A range that is kept was given back and reserved again without a failure. */
  lemma KeptMeans(m: Memory, statusOf: nat -> int, placeOf: nat -> nat, c: nat, dMem: nat, size: nat)
    requires CycleOutcome(m, statusOf, placeOf, c, dMem, size) == Kept
    ensures statusOf(c) == 0 && statusOf(c + 1) == 0 && placeOf(c + 1) == dMem
  {
    hide FreeLegal, ReserveLegal;
  }

  /** `UnmapAndRelease` on allocation `i`, from call `c` on, ends without an error. */
  ghost predicate SleepsCleanly(w: World, i: nat, statusOf: nat -> int, placeOf: nat -> nat, c: nat)
    requires i < |w.allocs| && i < |w.phases| && w.phases[i].Backed? && |w.phases[i].handles| == |w.allocs[i].chunks|
  {
    var a, n := w.allocs[i], |w.allocs[i].chunks|;
    var m := Released(w.mem, a.base, a.chunks, w.phases[i].handles, statusOf, c);
    FirstError(statusOf, c, 2 * n) == 0 && CycleOutcome(m, statusOf, placeOf, c + 2 * n, a.base, a.size) == Kept
  }

  lemma BackedIsAwake(w: World, i: nat)
    requires Inv(w) && i < |w.allocs| && w.phases[i].Backed?
    ensures var a, hs := w.allocs[i], w.phases[i].handles;
            |hs| == |a.chunks| && IsAwake(w.mem, a.base, a.chunks, hs) && |w.allocs| == |w.phases|
  {
  }

  /** It does so exactly when no driver call fails and the driver offers the same address again. */
  lemma SleepOutcome(w: World, i: nat, statusOf: nat -> int, placeOf: nat -> nat, c: nat)
    requires Inv(w) && i < |w.allocs| && i < |w.phases| && w.phases[i].Backed? && |w.phases[i].handles| == |w.allocs[i].chunks|
    ensures var a, end := w.allocs[i], c + 2 * |w.allocs[i].chunks|;
            && (SleepsCleanly(w, i, statusOf, placeOf, c) <==> AllOk(statusOf, c, end + 2) && placeOf(end + 1) == a.base)
            && (SleepsCleanly(w, i, statusOf, placeOf, c) ==>
                  var m := Released(w.mem, a.base, a.chunks, w.phases[i].handles, statusOf, c);
                  Step(w, w.(mem := m, phases := w.phases[i := Sleeping]), Sleep(i)))
  {
    hide Inv, IsAwake, Released, CycleOutcome, FirstError, Step, AllOk;
    var a, hs, end := w.allocs[i], w.phases[i].handles, c + 2 * |w.allocs[i].chunks|;
    FirstErrorIs(statusOf, c, 2 * |a.chunks|);
    AllOkSplit(statusOf, c, end, end + 2);
    AllOkSplit(statusOf, end, end + 1, end + 2);
    AllOkOne(statusOf, end);
    AllOkOne(statusOf, end + 1);
    if SleepsCleanly(w, i, statusOf, placeOf, c) {
      KeptMeans(Released(w.mem, a.base, a.chunks, hs, statusOf, c), statusOf, placeOf, end, a.base, a.size);
    }
    if AllOk(statusOf, c, end + 2) && placeOf(end + 1) == a.base {
      UnmapAndReleaseSleeps(w, i, statusOf, placeOf, c);
    }
  }

  /**
   `python_unmap_and_release`.  The memory it leaves is stated for every pattern of failures.  The release is a
   sleep step exactly when no driver call fails and the driver offers the same address again; it is
   then reported as a success unless an error was pending.  The error is cleared either way.
   */
  method PutToSleep(al: Allocator, handles: array<nat>, chunkSizes: seq<nat>, dMem: nat, size: nat, ghost w: World, ghost i: nat)
    returns (ok: bool)
    requires Inv(w) && al.mem == w.mem
    requires i < |w.allocs| && i < |w.phases| && w.phases[i] == Backed(handles[..]) && w.allocs[i] == Allocation(dMem, size, chunkSizes)
    modifies al`mem, al`calls, al`errorCode
    ensures al.errorCode == 0 && handles.Length == |chunkSizes|
    ensures var error, cycle := FirstError(al.statusOf, old(al.calls), 2 * |chunkSizes|), old(al.calls) + 2 * |chunkSizes|;
            var m := Released(w.mem, dMem, chunkSizes, handles[..], al.statusOf, old(al.calls));
            al.mem == if error != 0 then m else Cycled(m, al.statusOf, al.placeOf, cycle, dMem, size)
    ensures var cycle := old(al.calls) + 2 * |chunkSizes|;
            var clean := AllOk(al.statusOf, old(al.calls), cycle + 2) && al.placeOf(cycle + 1) == dMem;
            && (ok <==> clean && old(al.errorCode) == 0)
            && (clean ==> Step(w, w.(mem := al.mem, phases := w.phases[i := Sleeping]), Sleep(i)))
  {
    hide Inv, IsAwake, Released, Cycled, FirstError, AllOk, Step, SleepsCleanly;
    BackedIsAwake(w, i);
    SleepOutcome(w, i, al.statusOf, al.placeOf, al.calls);
    RunUnmapAndRelease(al, handles, chunkSizes, dMem, size, w, i);
    ok := al.errorCode == 0;
    al.errorCode := 0;
  }

  /** The call itself, in terms of the world. */
  method RunUnmapAndRelease(al: Allocator, handles: array<nat>, chunkSizes: seq<nat>, dMem: nat, size: nat,
                            ghost w: World, ghost i: nat)
    requires al.mem == w.mem && i < |w.allocs| && i < |w.phases|
    requires w.phases[i] == Backed(handles[..]) && w.allocs[i] == Allocation(dMem, size, chunkSizes)
    requires handles.Length == |chunkSizes| && IsAwake(al.mem, dMem, chunkSizes, handles[..])
    modifies al`mem, al`calls, al`errorCode
    ensures al.errorCode == 0 <==> SleepsCleanly(w, i, al.statusOf, al.placeOf, old(al.calls)) && old(al.errorCode) == 0
    ensures var error, cycle := FirstError(al.statusOf, old(al.calls), 2 * |chunkSizes|), old(al.calls) + 2 * |chunkSizes|;
            var m := Released(w.mem, dMem, chunkSizes, handles[..], al.statusOf, old(al.calls));
            && al.mem == (if error != 0 then m else Cycled(m, al.statusOf, al.placeOf, cycle, dMem, size))
            && (SleepsCleanly(w, i, al.statusOf, al.placeOf, old(al.calls)) ==> al.mem == m)
  {
    hide IsAwake, Released, ReleaseAll, CycleOutcome, FirstError;
    AwakeReleaseAll(al.mem, dMem, chunkSizes, handles[..], al.statusOf, al.calls);
    al.UnmapAndRelease(size, dMem, handles, chunkSizes);
  }

  /**
   `python_create_and_map`.  It succeeds exactly when no error was pending and no driver call fails; a success
   is a wake step.  After a failed create or map the memory is that of the world before exactly when no
   rollback call fails, after a failed access call everything is mapped, and a pending error
   costs the first handle.  The error is cleared either way.
   */
  method WakeUp(al: Allocator, handles: array<nat>, chunkSizes: seq<nat>, dMem: nat, size: nat, ghost w: World, ghost i: nat)
    returns (ok: bool, ghost f: nat)
    requires Inv(w) && al.mem == w.mem
    requires i < |w.allocs| && i < |w.phases| && w.phases[i].Sleeping? && w.allocs[i] == Allocation(dMem, size, chunkSizes)
    requires handles.Length == |chunkSizes|
    modifies al`mem, al`calls, al`errorCode, handles
    ensures al.errorCode == 0
    ensures ok <==> old(al.errorCode) == 0 && AllOk(al.statusOf, old(al.calls), old(al.calls) + 2 * |chunkSizes| + 1)
    ensures ok ==> Step(w, w.(mem := al.mem, phases := w.phases[i := Backed(handles[..])]), Wake(i, handles[..]))
    ensures !ok && old(al.errorCode) == 0 ==>
              && f <= 2 * |chunkSizes| && AllOk(al.statusOf, old(al.calls), old(al.calls) + f)
              && al.statusOf(old(al.calls) + f) != 0
              && (f < 2 * |chunkSizes| ==> (al.mem == w.mem <==> AllOk(al.statusOf, old(al.calls) + f + 1, al.calls)))
              && (f == 2 * |chunkSizes| ==> al.mem == Awake(w.mem, dMem, chunkSizes, handles[..]))
    ensures old(al.errorCode) != 0 ==>
              al.mem == if chunkSizes == [] || al.statusOf(old(al.calls)) != 0 then w.mem
                        else w.mem.(live := w.mem.live[handles[0] := chunkSizes[0]])
  {
    hide Inv, Vacant, Occupied, Awake, Offset;
    SleepingIsClear(w, i);
    f := al.CreateAndMap(size, dMem, handles, chunkSizes);
    ok := al.errorCode == 0;
    al.errorCode := 0;
  }

  // ----- my_malloc and my_free as steps

  /** The world before an allocation was made, as far as memory is concerned. */
  ghost function Without(w: World, i: nat): Memory
    requires i < |w.allocs| && i < |w.phases| && w.phases[i].Backed?
  {
    GivenUp(Unbacked(w.mem, w.allocs[i], w.phases[i].handles), w.allocs[i].base)
  }

  lemma RemoveThenAdd<V>(m: map<nat, V>, keys: seq<nat>, values: seq<V>)
    requires |keys| == |values| && Distinct(keys)
    requires forall j :: 0 <= j < |keys| ==> keys[j] in m && m[keys[j]] == values[j]
    ensures (m - set x | x in keys) + Table(keys, values, |keys|) == m
  {
    TableIs(keys, values, |keys|);
    assert keys[..|keys|] == keys;
  }

  /** A backed allocation of any state is one that could have been made last. */
  lemma BackedSplits(w: World, i: nat)
    requires Inv(w) && i < |w.allocs| && w.phases[i].Backed?
    ensures var a, hs := w.allocs[i], w.phases[i].handles;
            && Allocated(Without(w, i), a.base, a.size, a.chunks, hs)
            && w.mem == Awake(Reserve(Without(w, i), a.base, a.size), a.base, a.chunks, hs)
            && Reserve(Without(w, i), a.base, a.size) == Unbacked(w.mem, a, hs)
  {
    var a, hs := w.allocs[i], w.phases[i].handles;
    var asleep := w.(mem := Unbacked(w.mem, a, hs), phases := w.phases[i := Sleeping]);
    assert Step(w, asleep, Sleep(i));
    StepKeepsInv(w, asleep, Sleep(i));
    SleepingIsClear(asleep, i);
    BackedIsAwake(w, i);
    assert IsAllocation(a) && Held(asleep, i);
    BackedTables(w.mem, a, hs);
    assert w.mem.reserved == (w.mem.reserved - {a.base})[a.base := a.size];
    assert hs[..|hs|] == hs;
  }

  lemma BackedTables(m: Memory, a: Allocation, hs: seq<nat>)
    requires IsAwake(m, a.base, a.chunks, hs)
    ensures m.mapped == Unbacked(m, a, hs).mapped + Layout(a.base, a.chunks, hs, |a.chunks|)
    ensures m.live == Unbacked(m, a, hs).live + Owned(a.chunks, hs, |a.chunks|)
  {
    var addrs := Addrs(a.base, a.chunks);
    AddrsDistinct(a.base, a.chunks);
    forall j | 0 <= j < |addrs|
      ensures addrs[j] in m.mapped && m.mapped[addrs[j]] == Mappings(a.chunks, hs)[j]
      ensures hs[j] in m.live && m.live[hs[j]] == a.chunks[j]
    {
      assert ChunkAwake(m, a.base, a.chunks, hs, j);
    }
    RemoveThenAdd(m.mapped, addrs, Mappings(a.chunks, hs));
    RemoveThenAdd(m.live, hs, a.chunks);
  }

  /** `my_malloc` in a world: a success is an obtain step and then a wake step of the new allocation. */
  method Allocate(al: Allocator, size: nat, env: ChunkSizeEnv, callbackOk: bool, ghost w: World)
    returns (ptr: nat, handles: array<nat>, ghost a: Allocation)
    requires 0 < al.granularity && size + al.granularity - 1 < TWO_64
    requires (env.Parsed? ==> env.megabytes < TWO_64) && ConfiguredChunkSize(env) + al.granularity - 1 < TWO_64
    requires Inv(w) && al.mem == w.mem
    modifies al`mem, al`calls, al`errorCode
    ensures fresh(handles)
    ensures ptr != 0 ==>
              var obtained := World(Reserve(w.mem, a.base, a.size), w.allocs + [a], w.phases + [Sleeping]);
              var i := |w.allocs|;
              && a.base == ptr && a.size == RoundUp(size, al.granularity)
              && Step(w, obtained, Obtain(a)) && |obtained.phases| == i + 1
              && Step(obtained, obtained.(mem := al.mem, phases := obtained.phases[i := Backed(handles[..])]),
                      Wake(i, handles[..]))
  {
    WorldIsSound(w);
    var alignedSize, chunkSizes;
    ghost var failed;
    hide Inv, Sound, ReserveLegal, Awake, ConfiguredChunkSize;
    ptr, alignedSize, handles, chunkSizes, failed := al.MyMalloc(size, env, callbackOk);
    a := Allocation(ptr, alignedSize, chunkSizes);
    if ptr != 0 { PositiveSize(w.mem, ptr, alignedSize); }
  }

  lemma PositiveSize(m: Memory, ptr: nat, size: nat)
    requires ReserveLegal(m, ptr, size)
    ensures 0 < size && 0 < ptr
  {
  }

  lemma WorldIsSound(w: World)
    requires Inv(w)
    ensures Sound(w.mem)
  {
    forall a | a in w.mem.mapped
      ensures 0 < w.mem.mapped[a].size
    {
      var i: nat, j: nat :| MappedBy(w, a, i, j);
      assert IsAllocation(w.allocs[i]);
    }
  }

  /**
   `my_free` of a backed allocation in any world: with the reserved size and a range that is finally given back
   it is a sleep step and a drop step; with another size it is at most the sleep step, and the range is lost.
   No error is left exactly when none was pending, the size is right, no call fails and the place is offered again.
   */
  method Free(al: Allocator, ptr: nat, size: nat, handles: array<nat>, chunkSizes: seq<nat>, ghost w: World, ghost i: nat)
    requires Inv(w) && al.mem == w.mem && i < |w.allocs| && i < |w.phases|
    requires w.phases[i] == Backed(handles[..]) && w.allocs[i].base == ptr && w.allocs[i].chunks == chunkSizes
    modifies al`mem, al`calls, al`errorCode
    ensures var a, released := w.allocs[i], FirstError(al.statusOf, old(al.calls), 2 * |chunkSizes|) == 0;
            var asleep := w.(mem := Unbacked(w.mem, a, handles[..]), phases := w.phases[i := Sleeping]);
            && Step(w, asleep, Sleep(i))
            && (size == a.size && released
                && GivenBack(asleep.mem, al.statusOf, al.placeOf, old(al.calls) + 2 * |chunkSizes|, a.base, size) ==>
                  Step(asleep, asleep.(mem := al.mem, phases := asleep.phases[i := Gone]), Drop(i)))
            && (size != a.size && released ==> al.mem == asleep.mem)
    ensures var cycle := old(al.calls) + 2 * |chunkSizes|;
            al.errorCode == 0 <==>
              && old(al.errorCode) == 0 && size == w.allocs[i].size
              && AllOk(al.statusOf, old(al.calls), cycle + 3) && al.placeOf(cycle + 1) == ptr
  {
    hide Inv, Step, Allocated, Awake, IsAwake, IsAsleep, FirstError, GivenBack, Unbacked, Without, Reserve, AllOk, ReserveLegal;
    BackedReservable(w, i);
    BackedIsAwake(w, i);
    BackedSplits(w, i);
    FreeSteps(w, i);
    al.MyFree(ptr, size, handles, chunkSizes, w.allocs[i].size, Without(w, i));
  }

  /** The range of a backed allocation could be reserved again once it is given up. */
  lemma BackedReservable(w: World, i: nat)
    requires Inv(w) && i < |w.allocs| && w.phases[i].Backed?
    ensures |w.allocs| == |w.phases| && ReserveLegal(Without(w, i), w.allocs[i].base, w.allocs[i].size)
  {
    hide ReserveLegal, FreeLegal, Unbacked;
    var asleep := w.(mem := Unbacked(w.mem, w.allocs[i], w.phases[i].handles), phases := w.phases[i := Sleeping]);
    assert Step(w, asleep, Sleep(i));
    StepKeepsInv(w, asleep, Sleep(i));
    ReservableAgain(asleep, i);
  }

  /** The two steps of a free. */
  lemma FreeSteps(w: World, i: nat)
    requires Inv(w) && i < |w.allocs| && w.phases[i].Backed?
    ensures var asleep := w.(mem := Unbacked(w.mem, w.allocs[i], w.phases[i].handles), phases := w.phases[i := Sleeping]);
            && Step(w, asleep, Sleep(i))
            && Step(asleep, asleep.(mem := Without(w, i), phases := asleep.phases[i := Gone]), Drop(i))
  {
  }

  // ----- calls that come twice

  lemma BackedIsOccupied(w: World, i: nat)
    requires Inv(w) && i < |w.allocs| && w.phases[i].Backed?
    ensures IsAllocation(w.allocs[i]) && |w.allocs[i].chunks| > 0 && |w.phases[i].handles| == |w.allocs[i].chunks|
    ensures Occupied(w.mem, w.allocs[i].base, w.allocs[i].chunks)
    ensures forall h :: h in w.phases[i].handles ==> h in w.mem.live
  {
    var a, hs := w.allocs[i], w.phases[i].handles;
    assert IsAllocation(a) && a.chunks != [];
    assert ChunkAwake(w.mem, a.base, a.chunks, hs, 0);
    assert Addr(a.base, a.chunks, 0) == a.base;
    forall h | h in hs
      ensures h in w.mem.live
    {
      var j :| 0 <= j < |hs| && hs[j] == h;
      assert ChunkAwake(w.mem, a.base, a.chunks, hs, j);
    }
  }

  /**
   `python_create_and_map` of an allocation that is backed, as a second `wake_up` asks for: it always fails.  The memory is
   unchanged exactly when no rollback call fails; but unless a create failed, the stored handles have been replaced
   by others, and those that back the chunks are lost.
   */
  method WakeAgain(al: Allocator, handles: array<nat>, chunkSizes: seq<nat>, dMem: nat, size: nat, ghost w: World, ghost i: nat)
    returns (ok: bool, ghost f: nat)
    requires Inv(w) && al.mem == w.mem && al.errorCode == 0
    requires i < |w.allocs| && i < |w.phases| && w.phases[i].Backed? && w.allocs[i] == Allocation(dMem, size, chunkSizes)
    requires handles.Length == |chunkSizes|
    modifies al`mem, al`calls, al`errorCode, handles
    ensures !ok && al.errorCode == 0 && f <= |chunkSizes| && old(al.calls) + f < al.calls
    ensures AllOk(al.statusOf, old(al.calls), old(al.calls) + f)
    ensures al.mem == w.mem <==> AllOk(al.statusOf, old(al.calls) + f + 1, al.calls)
    ensures f == |chunkSizes| ==> forall j :: 0 <= j < |chunkSizes| ==> handles[j] !in w.phases[i].handles
  {
    hide Inv, Vacant, Occupied, Awake, Offset;
    BackedIsOccupied(w, i);
    f := al.CreateAndMap(size, dMem, handles, chunkSizes);
    ok := al.errorCode == 0;
    al.errorCode := 0;
  }

  /** The chunks of a sleeping allocation are not mapped. */
  lemma SleepingIsAsleep(w: World, i: nat, handles: seq<nat>)
    requires Inv(w) && i < |w.allocs| && w.phases[i].Sleeping?
    requires |handles| == |w.allocs[i].chunks| && forall j :: 0 <= j < |handles| ==> handles[j] !in w.mem.live
    ensures IsAsleep(w.mem, w.allocs[i].base, w.allocs[i].chunks, handles)
  {
    var a := w.allocs[i];
    assert IsAllocation(a);
    forall j | 0 <= j < |a.chunks|
      ensures Addr(a.base, a.chunks, j) !in w.mem.mapped
    {
      var x := Addr(a.base, a.chunks, j);
      ChunkInside(a, j);
      if x in w.mem.mapped { OthersApart(w, i, x); }
    }
  }

  /**
   `python_unmap_and_release` of an allocation that sleeps, as a second `sleep` asks for: it always fails and
   changes nothing, as long as the driver has not handed out the released handles again.
   */
  method SleepAgain(al: Allocator, handles: array<nat>, chunkSizes: seq<nat>, dMem: nat, size: nat, ghost w: World, ghost i: nat)
    returns (ok: bool)
    requires Inv(w) && al.mem == w.mem
    requires i < |w.allocs| && i < |w.phases| && w.phases[i].Sleeping? && w.allocs[i] == Allocation(dMem, size, chunkSizes)
    requires handles.Length == |chunkSizes| && forall j :: 0 <= j < |chunkSizes| ==> handles[j] !in w.mem.live
    modifies al`mem, al`calls, al`errorCode
    ensures !ok && al.errorCode == 0 && al.mem == w.mem
  {
    hide Inv, IsAsleep, ReleaseAll;
    SleepingIsAsleep(w, i, handles[..]);
    AsleepReleaseAll(w.mem, dMem, chunkSizes, handles[..], al.statusOf, al.calls);
    al.UnmapAndRelease(size, dMem, handles, chunkSizes);
    ok := al.errorCode == 0;
    al.errorCode := 0;
  }

  /**
   `my_free` of an allocation that sleeps: it is a drop step exactly when the size is the reserved one and the last call
   succeeds, and changes nothing otherwise.  An error is left in any case.
   */
  method FreeSleeping(al: Allocator, ptr: nat, size: nat, handles: array<nat>, chunkSizes: seq<nat>, ghost w: World, ghost i: nat)
    requires Inv(w) && al.mem == w.mem && i < |w.allocs| && i < |w.phases|
    requires w.phases[i].Sleeping? && w.allocs[i].base == ptr && w.allocs[i].chunks == chunkSizes
    requires handles.Length == |chunkSizes| && forall j :: 0 <= j < |chunkSizes| ==> handles[j] !in w.mem.live
    modifies al`mem, al`calls, al`errorCode
    ensures al.errorCode != 0
    ensures if size == w.allocs[i].size && al.statusOf(old(al.calls) + 2 * |chunkSizes|) == 0
            then Step(w, w.(mem := al.mem, phases := w.phases[i := Gone]), Drop(i))
            else al.mem == w.mem
  {
    hide Inv, IsAsleep, IsMade, FreeLegal, Reserve;
    SleepingIsAsleep(w, i, handles[..]);
    ReservableAgain(w, i);
    SizeIsReserved(w, i, size);
    al.MyFree(ptr, size, handles, chunkSizes, 0, w.mem);
  }

  lemma SizeIsReserved(w: World, i: nat, size: nat)
    requires Inv(w) && i < |w.allocs| && i < |w.phases| && w.phases[i].Sleeping?
    ensures |w.allocs| == |w.phases| && (FreeLegal(w.mem, w.allocs[i].base, size) <==> size == w.allocs[i].size)
  {
    assert Held(w, i);
    ReservableAgain(w, i);
  }
}
