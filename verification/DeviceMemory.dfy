/** The driver's view of device memory, as values: reservations, live handles and mappings. */
module DeviceMemory {
  import opened ChunkPlan

  datatype Mapping = Mapping(size: nat, handle: nat)

  /** Reserved ranges by base address, live handles with their sizes, mappings by address. */
  datatype Memory = Memory(reserved: map<nat, nat>, live: map<nat, nat>, mapped: map<nat, Mapping>)

  predicate Apart(a: nat, n: nat, b: nat, m: nat) {
    a + n <= b || b + m <= a
  }

  // ----- what the driver accepts

  predicate MapLegal(m: Memory, addr: nat, size: nat, handle: nat) {
    && 0 < size && handle in m.live && m.live[handle] == size
    && (exists b :: b in m.reserved && b <= addr && addr + size <= b + m.reserved[b])
    && (forall a :: a in m.mapped ==> Apart(a, m.mapped[a].size, addr, size))
  }

  predicate UnmapLegal(m: Memory, addr: nat, size: nat) {
    addr in m.mapped && m.mapped[addr].size == size
  }

  /** A range is freed with the very size it was reserved with, and with nothing mapped in it. */
  predicate FreeLegal(m: Memory, addr: nat, size: nat) {
    && addr in m.reserved && m.reserved[addr] == size
    && (forall a :: a in m.mapped ==> Apart(a, m.mapped[a].size, addr, size))
  }

  /** The byte at `x` is mapped. */
  predicate Covered(m: Memory, x: nat) {
    exists a :: a in m.mapped && a <= x < a + m.mapped[a].size
  }

  /** Access is set only on a range that is mapped throughout. */
  predicate AccessLegal(m: Memory, addr: nat, size: nat) {
    forall x: nat :: addr <= x < addr + size ==> Covered(m, x)
  }

  predicate ReserveLegal(m: Memory, addr: nat, size: nat) {
    && 0 < addr && 0 < size && addr !in m.reserved
    && (forall b :: b in m.reserved ==> Apart(b, m.reserved[b], addr, size))
    && (forall a :: a in m.mapped ==> Apart(a, m.mapped[a].size, addr, size))
  }

  // ----- the chunks of one allocation

  predicate Positive(sizes: seq<nat>) {
    forall i :: 0 <= i < |sizes| ==> 0 < sizes[i]
  }

  predicate Distinct(xs: seq<nat>) {
    forall i, j :: 0 <= i < j < |xs| ==> xs[i] != xs[j]
  }

  /** The address of chunk `k`: chunks lie back to back from `base`. */
  function Addr(base: nat, sizes: seq<nat>, k: nat): nat
    requires k <= |sizes|
  {
    base + Offset(sizes, k)
  }

  /** `a` is the address of chunk `k`. */
  predicate IsAddr(base: nat, sizes: seq<nat>, k: nat, a: nat)
    requires k <= |sizes|
  {
    a == Addr(base, sizes, k)
  }

  /** The first `count` chunks are mapped at their addresses, so the driver unmaps them. */
  ghost predicate Unmappable(m: Memory, base: nat, sizes: seq<nat>, addrs: seq<nat>, count: nat) {
    && count <= |sizes| == |addrs| && Distinct(addrs)
    && forall j {:trigger IsAddr(base, sizes, j, addrs[j])} :: 0 <= j < count ==>
         IsAddr(base, sizes, j, addrs[j]) && UnmapLegal(m, addrs[j], sizes[j])
  }

  ghost predicate AllLive(m: Memory, handles: seq<nat>, count: nat) {
    count <= |handles| && Distinct(handles[..count]) && forall j :: 0 <= j < count ==> handles[j] in m.live
  }

  function Addrs(base: nat, sizes: seq<nat>): (r: seq<nat>)
    ensures |r| == |sizes|
  {
    seq(|sizes|, k requires 0 <= k < |sizes| => Addr(base, sizes, k))
  }

  lemma {:induction false} OffsetMonotone(sizes: seq<nat>, j: nat, k: nat)
    requires j <= k <= |sizes|
    ensures Offset(sizes, j) <= Offset(sizes, k)
    ensures j < k ==> Offset(sizes, j) + sizes[j] <= Offset(sizes, k)
    decreases k
  {
    if j < k { OffsetMonotone(sizes, j, k - 1); }
  }

  lemma AddrsDistinct(base: nat, sizes: seq<nat>)
    requires Positive(sizes)
    ensures Distinct(Addrs(base, sizes))
  {
    forall i, j | 0 <= i < j < |sizes|
      ensures Addrs(base, sizes)[i] != Addrs(base, sizes)[j]
    {
      OffsetMonotone(sizes, i, j);
    }
  }

  /** The first `k` keys with their values. */
  function Table<V>(keys: seq<nat>, values: seq<V>, k: nat): map<nat, V>
    requires k <= |keys| == |values|
  {
    if k == 0 then map[] else Table(keys, values, k - 1)[keys[k - 1] := values[k - 1]]
  }

  lemma {:induction false} TableIs<V>(keys: seq<nat>, values: seq<V>, k: nat)
    requires k <= |keys| == |values| && Distinct(keys)
    ensures forall x :: x in Table(keys, values, k) <==> x in keys[..k]
    ensures forall j :: 0 <= j < k ==> keys[j] in Table(keys, values, k) && Table(keys, values, k)[keys[j]] == values[j]
  {
    if k > 0 {
      TableIs(keys, values, k - 1);
      assert keys[..k] == keys[..k - 1] + [keys[k - 1]];
    }
  }

  /** A map that holds exactly the keys of a table, with their values, is that table. */
  lemma TableUnique<V>(keys: seq<nat>, values: seq<V>, m: map<nat, V>)
    requires |keys| == |values| && Distinct(keys)
    requires forall x :: x in m ==> x in keys
    requires forall j :: 0 <= j < |keys| ==> keys[j] in m && m[keys[j]] == values[j]
    ensures m == Table(keys, values, |keys|)
  {
    TableIs(keys, values, |keys|);
    assert keys[..|keys|] == keys;
    forall x | x in keys
      ensures x in m && x in Table(keys, values, |keys|) && m[x] == Table(keys, values, |keys|)[x]
    {
      var j :| 0 <= j < |keys| && keys[j] == x;
    }
  }

  lemma {:induction false} TableAgree<V>(keys: seq<nat>, keys': seq<nat>, values: seq<V>, k: nat)
    requires k <= |keys| == |keys'| == |values| && keys[..k] == keys'[..k]
    ensures Table(keys, values, k) == Table(keys', values, k)
  {
    if k > 0 {
      assert keys[..k][..k - 1] == keys[..k - 1] && keys'[..k][..k - 1] == keys'[..k - 1];
      assert keys[k - 1] == keys[..k][k - 1] == keys'[..k][k - 1];
      TableAgree(keys, keys', values, k - 1);
    }
  }

  function Mappings(sizes: seq<nat>, handles: seq<nat>): (r: seq<Mapping>)
    requires |sizes| == |handles|
    ensures |r| == |sizes|
    ensures forall k :: 0 <= k < |sizes| ==> r[k] == Mapping(sizes[k], handles[k])
  {
    seq(|sizes|, k requires 0 <= k < |sizes| => Mapping(sizes[k], handles[k]))
  }

  /** The mappings of the first `k` chunks. */
  function Layout(base: nat, sizes: seq<nat>, handles: seq<nat>, k: nat): map<nat, Mapping>
    requires k <= |sizes| == |handles|
  {
    Table(Addrs(base, sizes), Mappings(sizes, handles), k)
  }

  /** The first `k` handles with their sizes. */
  function Owned(sizes: seq<nat>, handles: seq<nat>, k: nat): map<nat, nat>
    requires k <= |sizes| == |handles|
  {
    Table(handles, sizes, k)
  }

  /** Nothing mapped meets the range of an allocation. */
  predicate RangeClear(m: Memory, base: nat, size: nat) {
    forall a :: a in m.mapped ==> Apart(a, m.mapped[a].size, base, size)
  }

  /** The range of an allocation is reserved. */
  predicate RangeReserved(m: Memory, base: nat, size: nat) {
    base in m.reserved && size <= m.reserved[base]
  }

  /** The mapping at an address of the layout is that of some chunk before `k`. */
  lemma LayoutChunk(base: nat, sizes: seq<nat>, handles: seq<nat>, k: nat, a: nat) returns (j: nat)
    requires k <= |sizes| == |handles| && Positive(sizes) && a in Layout(base, sizes, handles, k)
    ensures j < k && a == Addr(base, sizes, j) && Layout(base, sizes, handles, k)[a] == Mapping(sizes[j], handles[j])
  {
    var addrs := Addrs(base, sizes);
    AddrsDistinct(base, sizes);
    TableIs(addrs, Mappings(sizes, handles), k);
    j :| 0 <= j < k && addrs[..k][j] == a;
    assert addrs[j] == a;
  }

  lemma LayoutApart(base: nat, sizes: seq<nat>, handles: seq<nat>, k: nat)
    requires k < |sizes| == |handles| && Positive(sizes)
    ensures forall a :: a in Layout(base, sizes, handles, k) ==>
              Apart(a, Layout(base, sizes, handles, k)[a].size, Addr(base, sizes, k), sizes[k])
  {
    forall a | a in Layout(base, sizes, handles, k)
      ensures Apart(a, Layout(base, sizes, handles, k)[a].size, Addr(base, sizes, k), sizes[k])
    {
      var j := LayoutChunk(base, sizes, handles, k, a);
      OffsetMonotone(sizes, j, k);
    }
  }

  /** Chunk after chunk, the next mapping is one the driver accepts. */
  lemma NextMapLegal(m: Memory, base: nat, sizes: seq<nat>, handles: seq<nat>, k: nat)
    requires k < |sizes| == |handles| && Positive(sizes)
    requires RangeReserved(m, base, Offset(sizes, |sizes|)) && RangeClear(m, base, Offset(sizes, |sizes|))
    requires handles[k] in m.live && m.live[handles[k]] == sizes[k]
    ensures MapLegal(m.(mapped := m.mapped + Layout(base, sizes, handles, k)), Addr(base, sizes, k), sizes[k], handles[k])
  {
    OffsetMonotone(sizes, k, |sizes|);
    LayoutApart(base, sizes, handles, k);
    assert base <= Addr(base, sizes, k) && Addr(base, sizes, k) + sizes[k] <= base + m.reserved[base];
  }

  /** No mapping is empty: the driver maps none. */
  ghost predicate Sound(m: Memory) {
    forall a :: a in m.mapped ==> 0 < m.mapped[a].size
  }

  /** The addresses of the chunks are not in use while the range is clear. */
  lemma AddrsUnused(m: Memory, base: nat, sizes: seq<nat>, handles: seq<nat>, k: nat)
    requires k <= |sizes| == |handles| && Positive(sizes)
    requires Sound(m) && RangeClear(m, base, Offset(sizes, |sizes|))
    ensures Layout(base, sizes, handles, k).Keys !! m.mapped.Keys
  {
    forall a | a in Layout(base, sizes, handles, k)
      ensures a !in m.mapped
    {
      var j := LayoutChunk(base, sizes, handles, k, a);
      OffsetMonotone(sizes, j, |sizes|);
    }
  }

  /** The memory after every chunk is created and mapped. */
  function Awake(m: Memory, base: nat, sizes: seq<nat>, handles: seq<nat>): Memory
    requires |sizes| == |handles|
  {
    m.(live := m.live + Owned(sizes, handles, |sizes|),
       mapped := m.mapped + Layout(base, sizes, handles, |sizes|))
  }

  /** The chunk that holds the byte at distance `x` from the base. */
  lemma {:induction false} ChunkHolding(sizes: seq<nat>, k: nat, x: nat) returns (j: nat)
    requires k <= |sizes| && x < Offset(sizes, k)
    ensures j < k && Offset(sizes, j) <= x < Offset(sizes, j) + sizes[j]
  {
    if Offset(sizes, k - 1) <= x {
      j := k - 1;
    } else {
      j := ChunkHolding(sizes, k - 1, x);
    }
  }

  /** Access can be set on a new allocation exactly when its chunks fill the range. */
  lemma AwakeAccess(before: Memory, base: nat, size: nat, sizes: seq<nat>, handles: seq<nat>)
    requires |handles| == |sizes| && Positive(sizes) && Offset(sizes, |sizes|) <= size && RangeClear(before, base, size)
    ensures AccessLegal(Awake(before, base, sizes, handles), base, size) <==> Offset(sizes, |sizes|) == size
  {
    var m, end := Awake(before, base, sizes, handles), Offset(sizes, |sizes|);
    if end < size {
      EndNotCovered(before, base, size, sizes, handles);
    } else {
      forall x: nat | base <= x < base + size
        ensures Covered(m, x)
      {
        ChunkCovers(before, base, sizes, handles, x);
      }
    }
  }

  lemma EndNotCovered(before: Memory, base: nat, size: nat, sizes: seq<nat>, handles: seq<nat>)
    requires |handles| == |sizes| && Positive(sizes) && Offset(sizes, |sizes|) < size && RangeClear(before, base, size)
    ensures !Covered(Awake(before, base, sizes, handles), base + Offset(sizes, |sizes|))
  {
    var m, x := Awake(before, base, sizes, handles), base + Offset(sizes, |sizes|);
    forall a | a in m.mapped
      ensures !(a <= x < a + m.mapped[a].size)
    {
      if a in Layout(base, sizes, handles, |sizes|) {
        var j := LayoutChunk(base, sizes, handles, |sizes|, a);
        OffsetMonotone(sizes, j, |sizes|);
      } else {
        assert Apart(a, before.mapped[a].size, base, size);
      }
    }
  }

  lemma ChunkCovers(before: Memory, base: nat, sizes: seq<nat>, handles: seq<nat>, x: nat)
    requires |handles| == |sizes| && Positive(sizes) && base <= x < base + Offset(sizes, |sizes|)
    ensures Covered(Awake(before, base, sizes, handles), x)
  {
    var j := ChunkHolding(sizes, |sizes|, x - base);
    var addrs := Addrs(base, sizes);
    AddrsDistinct(base, sizes);
    TableIs(addrs, Mappings(sizes, handles), |sizes|);
    var a := addrs[j];
    assert a == Addr(base, sizes, j);
    assert a in Awake(before, base, sizes, handles).mapped;
  }

  // ----- undoing calls one by one

  /** The elements of `xs[..k]` whose call, the first being call number `first`, succeeds. */
  function Undone(xs: seq<nat>, statusOf: nat -> int, first: nat, k: nat): set<nat>
    requires k <= |xs|
  {
    if k == 0 then {}
    else Undone(xs, statusOf, first, k - 1) + (if statusOf(first + k - 1) == 0 then {xs[k - 1]} else {})
  }

  predicate AllOk(statusOf: nat -> int, first: nat, last: nat) {
    forall c :: first <= c < last ==> statusOf(c) == 0
  }

  lemma AllOkSplit(statusOf: nat -> int, first: nat, middle: nat, last: nat)
    requires first <= middle <= last
    ensures AllOk(statusOf, first, last) <==> AllOk(statusOf, first, middle) && AllOk(statusOf, middle, last)
  {
  }

  lemma AllOkOne(statusOf: nat -> int, c: nat)
    ensures AllOk(statusOf, c, c + 1) <==> statusOf(c) == 0
    ensures AllOk(statusOf, c, c)
  {
  }

  lemma {:induction false} UndoneIs(xs: seq<nat>, statusOf: nat -> int, first: nat, k: nat)
    requires k <= |xs| && Distinct(xs)
    ensures forall j :: 0 <= j < k ==> (xs[j] in Undone(xs, statusOf, first, k) <==> statusOf(first + j) == 0)
    ensures forall x :: x in Undone(xs, statusOf, first, k) ==> x in xs[..k]
  {
    if k > 0 {
      UndoneIs(xs, statusOf, first, k - 1);
      assert xs[..k] == xs[..k - 1] + [xs[k - 1]];
    }
  }

  /** One more call: it finds its element untouched and takes it away iff it succeeds. */
  lemma UndoneStep<V>(m: map<nat, V>, xs: seq<nat>, statusOf: nat -> int, first: nat, k: nat)
    requires k < |xs| && Distinct(xs) && xs[k] in m
    ensures var rest := m - Undone(xs, statusOf, first, k);
            && xs[k] in rest && rest[xs[k]] == m[xs[k]]
            && m - Undone(xs, statusOf, first, k + 1) == if statusOf(first + k) == 0 then rest - {xs[k]} else rest
  {
    UndoneIs(xs, statusOf, first, k);
    assert xs[k] !in xs[..k];
  }

  /** All of a fresh batch of keys is gone again exactly when every undoing call succeeded. */
  lemma UndoneRestores<T>(old_: map<nat, T>, added: map<nat, T>, xs: seq<nat>, k: nat,
                          statusOf: nat -> int, first: nat)
    requires k <= |xs| && Distinct(xs)
    requires forall x :: x in added <==> x in xs[..k]
    requires added.Keys !! old_.Keys
    ensures (old_ + added) - Undone(xs, statusOf, first, k) == old_ <==> AllOk(statusOf, first, first + k)
  {
    UndoneIs(xs, statusOf, first, k);
    var rest := (old_ + added) - Undone(xs, statusOf, first, k);
    if AllOk(statusOf, first, first + k) {
      forall j | 0 <= j < k
        ensures xs[j] !in rest
      {
        assert statusOf(first + j) == 0;
      }
    } else {
      var c :| first <= c < first + k && statusOf(c) != 0;
      assert xs[..k][c - first] == xs[c - first];
      assert xs[c - first] in rest;
    }
  }

  /** The chunks of the layout are mapped with their own sizes, so each can be unmapped. */
  lemma LayoutUnmappable(m: Memory, base: nat, sizes: seq<nat>, handles: seq<nat>, k: nat, j: nat)
    requires j < k <= |sizes| == |handles| && Positive(sizes)
    requires forall a :: a in Layout(base, sizes, handles, k) ==>
               a in m.mapped && m.mapped[a] == Layout(base, sizes, handles, k)[a]
    ensures IsAddr(base, sizes, j, Addrs(base, sizes)[j]) && UnmapLegal(m, Addrs(base, sizes)[j], sizes[j])
  {
    AddrsDistinct(base, sizes);
    TableIs(Addrs(base, sizes), Mappings(sizes, handles), k);
  }

  /** When every call succeeds, all elements are gone. */
  lemma UndoneAll(xs: seq<nat>, statusOf: nat -> int, first: nat)
    requires Distinct(xs) && AllOk(statusOf, first, first + |xs|)
    ensures Undone(xs, statusOf, first, |xs|) == set x | x in xs
  {
    UndoneIs(xs, statusOf, first, |xs|);
    assert xs[..|xs|] == xs;
    forall x | x in xs
      ensures x in Undone(xs, statusOf, first, |xs|)
    {
      var j :| 0 <= j < |xs| && xs[j] == x;
      assert statusOf(first + j) == 0;
    }
  }
}
