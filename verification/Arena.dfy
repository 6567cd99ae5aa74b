/**
 The pool and the arena of core/include/join/allocator.hpp as one thread sees them: pools of
 equal chunks laid out one after the other in a single region, requests promoted to the next
 larger class when their own is exhausted.

 `FreeList` shows that interleaved calls behave like these stacks of chunks.
 */
module Arena {
  import opened FreeList
  import opened Wrappers

  /** Size of the segment header and offset of its chunk array on the 64-bit ABI: two
      cache-line-aligned words, then chunks at the next 16-byte boundary. */
  const HEADER: nat := 128
  const CHUNKS_OFFSET: nat := 80

  class BasicPool {
    const base: nat    // address of the first chunk
    const size: nat    // bytes in a chunk
    const links: array<nat>
    var head: Head
    ghost var free: seq<Index>

    ghost predicate Valid()
      reads this, links
    {
      && 0 < links.Length <= NULL_IDX
      && 0 < size
      && Distinct(free)
      && Chain(links[..], head.idx, free)
    }

    constructor (base: nat, count: nat, size: nat)
      requires 0 < count <= NULL_IDX && 0 < size
      ensures Valid() && fresh(links)
      ensures this.base == base && this.size == size && links.Length == count
      ensures free == Iota(count)
    {
      this.base, this.size := base, size;
      var chunks := new nat[count];
      links := chunks;
      head := Head(0, 0);
      free := Iota(count);
      new;
      var i := 0;
      while i < count - 1
        modifies links
        invariant 0 <= i <= count - 1
        invariant forall k :: 0 <= k < i ==> links[k] == k + 1
      {
        links[i] := i + 1;
        i := i + 1;
      }
      links[count - 1] := NULL_IDX;
      forall k | 0 <= k < |free| ensures LinkAt(links[..], free, k) {}
    }

    /** Take the chunk at the head, or report that there is none. */
    method Pop() returns (r: Option<Index>)
      requires Valid()
      modifies this
      ensures Valid()
      ensures old(free) == [] ==> r == None && free == []
      ensures old(free) != [] ==> r == Some(old(free)[0]) && free == old(free)[1..]
    {
      var cur := head;
      if cur.idx == NULL_IDX {
        return None;
      }
      assert LinkAt(links[..], free, 0);
      assert |free| > 1 ==> LinkAt(links[..], free, 1);
      head := Head(links[cur.idx], NextGen(cur.gen));
      ghost var list := free;
      free := free[1..];
      forall k | 0 <= k < |free| ensures LinkAt(links[..], free, k) {
        assert LinkAt(links[..], list, k + 1);
      }
      return Some(cur.idx);
    }

    /** Put a chunk back at the head. */
    method Push(chunk: Index)
      requires Valid() && chunk < links.Length && chunk !in free
      modifies this, links
      ensures Valid()
      ensures free == [chunk] + old(free)
    {
      ghost var was := links[..];
      links[chunk] := head.idx;
      head := Head(chunk, NextGen(head.gen));
      free := [chunk] + free;
      assert links[..] == was[chunk := old(head.idx)];
      forall k | 0 <= k < |free| ensures LinkAt(links[..], free, k) {
        if k > 0 { assert LinkAt(was, old(free), k - 1) && old(free)[k - 1] in old(free); }
      }
    }

    predicate Owns(p: nat)
      reads this
    {
      base <= p < base + links.Length * size
    }
  }

  // ----- layout

  function PoolBytes(count: nat, size: nat): nat { HEADER + size * count }

  /** Bytes needed for pools of the given sizes. */
  function TotalSize(count: nat, sizes: seq<nat>): nat {
    if sizes == [] then 0 else PoolBytes(count, sizes[0]) + TotalSize(count, sizes[1..])
  }

  predicate Ascending(sizes: seq<nat>) {
    forall i, j :: 0 <= i < j < |sizes| ==> sizes[i] <= sizes[j]
  }

  lemma {:induction false} TotalSizeSplit(count: nat, sizes: seq<nat>, i: nat)
    requires i < |sizes|
    ensures TotalSize(count, sizes[..i + 1]) == TotalSize(count, sizes[..i]) + PoolBytes(count, sizes[i])
    ensures TotalSize(count, sizes[..i + 1]) <= TotalSize(count, sizes)
    decreases i
  {
    if i == 0 {
      assert sizes[..1][1..] == [] && sizes[..0] == [];
    } else {
      assert sizes[..i + 1][1..] == sizes[1..][..i] && sizes[..i][1..] == sizes[1..][..i - 1];
      TotalSizeSplit(count, sizes[1..], i - 1);
    }
  }

  lemma {:induction false} TotalSizeMonotone(count: nat, sizes: seq<nat>, i: nat, j: nat)
    requires i <= j <= |sizes|
    ensures TotalSize(count, sizes[..i]) <= TotalSize(count, sizes[..j])
    decreases j - i
  {
    if i < j { TotalSizeSplit(count, sizes, i); TotalSizeMonotone(count, sizes, i + 1, j); }
  }

  /** Byte offset of every pool in the region. */
  method MakeOffsets(count: nat, sizes: seq<nat>) returns (offsets: array<nat>)
    requires |sizes| > 0
    ensures offsets.Length == |sizes|
    ensures forall i :: 0 <= i < |sizes| ==> offsets[i] == TotalSize(count, sizes[..i])
    ensures fresh(offsets)
  {
    offsets := new nat[|sizes|](_ => 0);
    var i := 1;
    while i < |sizes|
      invariant 1 <= i <= |sizes|
      invariant forall k :: 0 <= k < i ==> offsets[k] == TotalSize(count, sizes[..k])
    {
      TotalSizeSplit(count, sizes, i - 1);
      offsets[i] := offsets[i - 1] + PoolBytes(count, sizes[i - 1]);
      i := i + 1;
    }
  }

  // ----- blocks and addresses

  datatype Block = Block(pool: nat, chunk: Index)

  predicate IsBlock(count: nat, sizes: seq<nat>, b: Block) { b.pool < |sizes| && b.chunk < count }

  function PoolBase(region: nat, count: nat, sizes: seq<nat>, i: nat): nat
    requires i < |sizes|
  {
    region + TotalSize(count, sizes[..i]) + CHUNKS_OFFSET
  }

  function Address(region: nat, count: nat, sizes: seq<nat>, b: Block): nat
    requires IsBlock(count, sizes, b)
  {
    PoolBase(region, count, sizes, b.pool) + b.chunk * sizes[b.pool]
  }

  lemma MulMonotone(a: nat, b: nat, c: nat)
    requires a <= b
    ensures a * c <= b * c
  {
    assert b * c == a * c + (b - a) * c;
  }

  lemma ChunkFits(chunk: nat, other: nat, count: nat, size: nat)
    requires chunk < other <= count
    ensures chunk * size + size <= other * size <= count * size
  {
    assert (chunk + 1) * size == chunk * size + size;
    MulMonotone(chunk + 1, other, size);
    MulMonotone(other, count, size);
  }

  /** A block lies inside its pool's share of the region. */
  lemma {:induction false} BlockInPool(region: nat, count: nat, sizes: seq<nat>, b: Block)
    requires IsBlock(count, sizes, b)
    ensures PoolBase(region, count, sizes, b.pool) <= Address(region, count, sizes, b)
    ensures Address(region, count, sizes, b) + sizes[b.pool] <= PoolBase(region, count, sizes, b.pool) + count * sizes[b.pool]
    ensures PoolBase(region, count, sizes, b.pool) + count * sizes[b.pool] < region + TotalSize(count, sizes[..b.pool + 1])
    ensures region < Address(region, count, sizes, b)
    ensures Address(region, count, sizes, b) + sizes[b.pool] < region + TotalSize(count, sizes)
  {
    ChunkFits(b.chunk, count, count, sizes[b.pool]);
    assert b.chunk * sizes[b.pool] >= 0;
    TotalSizeSplit(count, sizes, b.pool);
  }

  /** Two different blocks share no byte, wherever they are. */
  lemma {:induction false} BlocksDisjoint(region: nat, count: nat, sizes: seq<nat>, a: Block, b: Block)
    requires IsBlock(count, sizes, a) && IsBlock(count, sizes, b) && a != b
    ensures
      var pa, pb := Address(region, count, sizes, a), Address(region, count, sizes, b);
      pa + sizes[a.pool] <= pb || pb + sizes[b.pool] <= pa
  {
    BlockInPool(region, count, sizes, a);
    BlockInPool(region, count, sizes, b);
    if a.pool < b.pool {
      TotalSizeMonotone(count, sizes, a.pool + 1, b.pool);
    } else if b.pool < a.pool {
      TotalSizeMonotone(count, sizes, b.pool + 1, a.pool);
    } else if a.chunk < b.chunk {
      ChunkFits(a.chunk, b.chunk, count, sizes[a.pool]);
    } else {
      ChunkFits(b.chunk, a.chunk, count, sizes[a.pool]);
    }
  }

  /** Only the pool a block belongs to claims its address. */
  lemma {:induction false} OwnedByOnePool(region: nat, count: nat, sizes: seq<nat>, b: Block, j: nat)
    requires IsBlock(count, sizes, b) && j < |sizes| && 0 < sizes[b.pool]
    ensures
      var base, p := PoolBase(region, count, sizes, j), Address(region, count, sizes, b);
      (base <= p < base + count * sizes[j]) <==> j == b.pool
  {
    BlockInPool(region, count, sizes, b);
    if count > 0 { BlockInPool(region, count, sizes, Block(j, 0)); }
    if j < b.pool {
      TotalSizeMonotone(count, sizes, j + 1, b.pool);
    } else if b.pool < j {
      TotalSizeMonotone(count, sizes, b.pool + 1, j);
    }
  }

  // ----- what the arena's operations mean for the stacks of free chunks

  type FreeLists = seq<seq<Index>>

  /** Position of the first pool, from `i` on, that fits the request and has a chunk left. */
  function FirstAvailable(sizes: seq<nat>, free: FreeLists, size: nat, i: nat): (r: Option<nat>)
    requires |free| == |sizes| && i <= |sizes|
    ensures r.None? <==> forall j :: i <= j < |sizes| && size <= sizes[j] ==> free[j] == []
    ensures r.Some? ==> i <= r.value < |sizes| && size <= sizes[r.value] && free[r.value] != []
    ensures r.Some? ==> forall j :: i <= j < r.value && size <= sizes[j] ==> free[j] == []
    decreases |sizes| - i
  {
    if i == |sizes| then None
    else if size <= sizes[i] && free[i] != [] then Some(i)
    else FirstAvailable(sizes, free, size, i + 1)
  }

  /** Position of the first pool, from `i` on, whose chunks are large enough. */
  function FirstFitting(sizes: seq<nat>, size: nat, i: nat): (r: Option<nat>)
    requires i <= |sizes|
    ensures r.None? <==> forall j :: i <= j < |sizes| ==> sizes[j] < size
    ensures r.Some? ==> i <= r.value < |sizes| && size <= sizes[r.value]
    ensures r.Some? ==> forall j :: i <= j < r.value ==> sizes[j] < size
    decreases |sizes| - i
  {
    if i == |sizes| then None else if size <= sizes[i] then Some(i) else FirstFitting(sizes, size, i + 1)
  }

  function Take(free: FreeLists, i: nat): FreeLists
    requires i < |free| && free[i] != []
  {
    free[i := free[i][1..]]
  }

  function Give(free: FreeLists, b: Block): FreeLists
    requires b.pool < |free|
  {
    free[b.pool := [b.chunk] + free[b.pool]]
  }

  predicate Live(count: nat, sizes: seq<nat>, free: FreeLists, b: Block)
    requires |free| == |sizes|
  {
    IsBlock(count, sizes, b) && b.chunk !in free[b.pool]
  }

  predicate WellFormed(count: nat, sizes: seq<nat>, free: FreeLists) {
    && |free| == |sizes|
    && forall i :: 0 <= i < |sizes| ==> Distinct(free[i]) && forall k :: 0 <= k < |free[i]| ==> free[i][k] < count
  }

  /** A pool as the arena's constructor leaves it: at its place in the region, every chunk free. */
  ghost predicate Made(pool: BasicPool, region: nat, count: nat, sizes: seq<nat>, i: nat)
    requires i < |sizes|
    reads pool, pool.links
  {
    && pool.Valid()
    && pool.size == sizes[i]
    && pool.links.Length == count
    && pool.base == PoolBase(region, count, sizes, i)
    && pool.free == Iota(count)
  }

  class BasicArena {
    const region: nat
    const count: nat
    const sizes: seq<nat>
    var pools: seq<BasicPool>

    ghost function Footprint(): set<object>
      reads this
    {
      set i | 0 <= i < |pools| :: pools[i]
    }

    ghost function Links(): set<object>
      reads this
    {
      set i | 0 <= i < |pools| :: pools[i].links
    }

    ghost predicate PoolAt(i: nat)
      requires i < |pools| && |pools| == |sizes|
      reads this, pools[i], pools[i].links
    {
      && pools[i].Valid()
      && pools[i].size == sizes[i]
      && pools[i].links.Length == count
      && pools[i].base == PoolBase(region, count, sizes, i)
    }

    ghost predicate Valid()
      reads this, Footprint(), Links()
    {
      && |pools| == |sizes| > 0
      && 0 < count <= NULL_IDX
      && Ascending(sizes)
      && (forall i :: 0 <= i < |sizes| ==> 0 < sizes[i])
      && (forall i, j :: 0 <= i < j < |pools| ==> pools[i] != pools[j] && pools[i].links != pools[j].links)
      && (forall i :: 0 <= i < |pools| ==> PoolAt(i))
    }

    ghost function Free(): FreeLists
      reads this, Footprint()
    {
      seq(|pools|, i requires 0 <= i < |pools| reads this, Footprint() => pools[i].free)
    }

    lemma FreeIsWellFormed()
      requires Valid()
      ensures WellFormed(count, sizes, Free())
    {
      forall i | 0 <= i < |sizes| ensures Distinct(Free()[i]) && forall k :: 0 <= k < |Free()[i]| ==> Free()[i][k] < count {
        assert PoolAt(i);
        forall k | 0 <= k < |Free()[i]| ensures Free()[i][k] < count { assert LinkAt(pools[i].links[..], pools[i].free, k); }
      }
    }

    constructor (region: nat, count: nat, sizes: seq<nat>)
      requires 0 < count <= NULL_IDX && |sizes| > 0 && Ascending(sizes)
      requires forall i :: 0 <= i < |sizes| ==> 0 < sizes[i]
      ensures Valid() && fresh(Footprint()) && fresh(Links())
      ensures this.region == region && this.count == count && this.sizes == sizes
      ensures Free() == seq(|sizes|, _ => Iota(count))
    {
      this.region, this.count, this.sizes := region, count, sizes;
      var made := MakePools(region, count, sizes);
      pools := made;
      new;
      forall i | 0 <= i < |pools| ensures PoolAt(i) { assert Made(pools[i], region, count, sizes, i); }
    }

    /** The pools at their computed offsets. */
    static method MakePools(region: nat, count: nat, sizes: seq<nat>) returns (made: seq<BasicPool>)
      requires 0 < count <= NULL_IDX && |sizes| > 0 && forall i :: 0 <= i < |sizes| ==> 0 < sizes[i]
      ensures |made| == |sizes|
      ensures forall i :: 0 <= i < |made| ==> Made(made[i], region, count, sizes, i)
      ensures forall i :: 0 <= i < |made| ==> fresh(made[i]) && fresh(made[i].links)
      ensures forall i, j :: 0 <= i < j < |made| ==> made[i] != made[j] && made[i].links != made[j].links
    {
      var offsets := MakeOffsets(count, sizes);
      made := [];
      var i := 0;
      while i < |sizes|
        modifies {}
        invariant 0 <= i == |made| <= |sizes|
        invariant forall k :: 0 <= k < i ==> Made(made[k], region, count, sizes, k)
        invariant forall k :: 0 <= k < i ==> fresh(made[k]) && fresh(made[k].links)
        invariant forall k, j :: 0 <= k < j < i ==> made[k] != made[j] && made[k].links != made[j].links
      {
        var pool := new BasicPool(region + offsets[i] + CHUNKS_OFFSET, count, sizes[i]);
        made := made + [pool];
        i := i + 1;
      }
    }

    /** First pool that fits, or the next larger one that still has a chunk. */
    method Allocate(size: nat) returns (p: Option<nat>)
      requires Valid()
      modifies Footprint()
      ensures Valid() && pools == old(pools)
      ensures
        match FirstAvailable(sizes, old(Free()), size, 0)
        case None => p == None && Free() == old(Free())
        case Some(i) =>
          && Free() == Take(old(Free()), i)
          && IsBlock(count, sizes, Block(i, old(Free())[i][0]))
          && p == Some(Address(region, count, sizes, Block(i, old(Free())[i][0])))
    {
      p := AllocateFrom(0, size);
    }

    method AllocateFrom(i: nat, size: nat) returns (p: Option<nat>)
      requires Valid() && i <= |sizes|
      modifies Footprint()
      ensures Valid() && pools == old(pools)
      ensures
        match FirstAvailable(sizes, old(Free()), size, i)
        case None => p == None && Free() == old(Free())
        case Some(i) =>
          && Free() == Take(old(Free()), i)
          && IsBlock(count, sizes, Block(i, old(Free())[i][0]))
          && p == Some(Address(region, count, sizes, Block(i, old(Free())[i][0])))
      decreases |sizes| - i
    {
      if i == |sizes| { return None; }
      assert PoolAt(i);
      if size <= pools[i].size {
        p := PopFrom(i);
        if p != None { return; }
      }
      p := AllocateFrom(i + 1, size);
    }

    /** Pop one pool of the arena and turn the chunk into an address. */
    method PopFrom(i: nat) returns (p: Option<nat>)
      requires Valid() && i < |sizes|
      modifies Footprint()
      ensures Valid() && pools == old(pools)
      ensures old(Free())[i] == [] ==> p == None && Free() == old(Free())
      ensures old(Free())[i] != [] ==>
        && Free() == Take(old(Free()), i)
        && IsBlock(count, sizes, Block(i, old(Free())[i][0]))
        && p == Some(Address(region, count, sizes, Block(i, old(Free())[i][0])))
    {
      FreeIsWellFormed();
      assert PoolAt(i);
      ghost var before := Free();
      var r := pools[i].Pop();
      forall j | 0 <= j < |pools| ensures PoolAt(j) { assert j != i ==> old(PoolAt(j)); }
      match r
      case None => p := None; assert Free() == before;
      case Some(chunk) =>
        p := Some(pools[i].base + chunk * pools[i].size);
        assert Free() == Take(before, i);
    }

    /** Only the pool that fits, with no promotion. */
    method TryAllocate(size: nat) returns (p: Option<nat>)
      requires Valid()
      modifies Footprint()
      ensures Valid() && pools == old(pools)
      ensures
        match FirstFitting(sizes, size, 0)
        case None => p == None && Free() == old(Free())
        case Some(i) =>
          if old(Free())[i] == [] then p == None && Free() == old(Free())
          else
            && Free() == Take(old(Free()), i)
            && IsBlock(count, sizes, Block(i, old(Free())[i][0]))
            && p == Some(Address(region, count, sizes, Block(i, old(Free())[i][0])))
    {
      var i := 0;
      while i < |sizes| && size > pools[i].size
        invariant 0 <= i <= |sizes|
        invariant FirstFitting(sizes, size, 0) == FirstFitting(sizes, size, i)
      {
        assert PoolAt(i);
        i := i + 1;
      }
      if i == |sizes| { return None; }
      assert PoolAt(i);
      p := PopFrom(i);
    }

    /** Put a chunk back into one pool of the arena. */
    method PushTo(i: nat, chunk: Index)
      requires Valid() && i < |sizes| && Live(count, sizes, Free(), Block(i, chunk))
      modifies Footprint(), Links()
      ensures Valid() && pools == old(pools)
      ensures Free() == Give(old(Free()), Block(i, chunk))
    {
      assert PoolAt(i);
      ghost var before := Free();
      pools[i].Push(chunk);
      forall j | 0 <= j < |pools| ensures PoolAt(j) { assert j != i ==> old(PoolAt(j)); }
      assert Free() == Give(before, Block(i, chunk));
    }

    ghost predicate Unowned(p: nat)
      reads this, Footprint()
    {
      forall i :: 0 <= i < |pools| ==> !pools[i].Owns(p)
    }

    /** Give a block back to whichever pool owns its address.  Null, and an address that no pool
        owns, are ignored. */
    method Deallocate(p: Option<nat>, ghost b: Option<Block>)
      requires Valid()
      requires b.Some? ==> Live(count, sizes, Free(), b.value) && p == Some(Address(region, count, sizes, b.value))
      requires b.None? ==> p == None || Unowned(p.value)
      modifies Footprint(), Links()
      ensures Valid() && pools == old(pools)
      ensures Free() == if b.None? then old(Free()) else Give(old(Free()), b.value)
    {
      if p.None? { return; }
      var i := 0;
      while i < |sizes| && !pools[i].Owns(p.value)
        modifies {}
        invariant 0 <= i <= |sizes|
        invariant b.Some? ==> i <= b.value.pool
      {
        assert PoolAt(i);
        if b.Some? { OwnedByOnePool(region, count, sizes, b.value, i); }
        i := i + 1;
      }
      if i == |sizes| { return; }
      assert PoolAt(i);
      OwnedByOnePool(region, count, sizes, b.value, i);
      QuotientOfMultiple(b.value.chunk, sizes[i]);
      PushTo(i, (p.value - pools[i].base) / pools[i].size);
    }
  }

  // ----- what a caller gets

  predicate Overlap(region: nat, count: nat, sizes: seq<nat>, a: Block, b: Block)
    requires IsBlock(count, sizes, a) && IsBlock(count, sizes, b)
  {
    var pa, pb := Address(region, count, sizes, a), Address(region, count, sizes, b);
    pa < pb + sizes[b.pool] && pb < pa + sizes[a.pool]
  }

  /** A block handed out is large enough, of the smallest class that could serve it, inside the
      region, disjoint from every block in use, and the only block whose state changes. */
  lemma {:induction false} AllocationIsSound(region: nat, count: nat, sizes: seq<nat>, free: FreeLists, size: nat)
    requires Ascending(sizes) && WellFormed(count, sizes, free)
    requires FirstAvailable(sizes, free, size, 0).Some?
    ensures
      var i := FirstAvailable(sizes, free, size, 0).value;
      var b := Block(i, free[i][0]);
      && IsBlock(count, sizes, b) && size <= sizes[i]
      && (forall j :: 0 <= j < |sizes| && size <= sizes[j] && free[j] != [] ==> sizes[i] <= sizes[j])
      && region < Address(region, count, sizes, b)
      && Address(region, count, sizes, b) + sizes[i] <= region + TotalSize(count, sizes)
      && WellFormed(count, sizes, Take(free, i))
      && !Live(count, sizes, free, b)
      && (forall c :: Live(count, sizes, Take(free, i), c) <==> Live(count, sizes, free, c) || c == b)
      && (forall c :: Live(count, sizes, free, c) ==> !Overlap(region, count, sizes, b, c))
  {
    var i := FirstAvailable(sizes, free, size, 0).value;
    var b := Block(i, free[i][0]);
    BlockInPool(region, count, sizes, b);
    forall c ensures Live(count, sizes, Take(free, i), c) <==> Live(count, sizes, free, c) || c == b {
      if IsBlock(count, sizes, c) && c.pool == i {
        assert c.chunk in free[i] <==> c.chunk == free[i][0] || c.chunk in free[i][1..];
      }
    }
    forall c | Live(count, sizes, free, c) ensures !Overlap(region, count, sizes, b, c) {
      BlocksDisjoint(region, count, sizes, b, c);
    }
  }

  /** Giving back a block in use frees that block and no other, in its own pool even when the
      request was promoted; and it undoes the allocation that produced it. */
  lemma {:induction false} DeallocationIsSound(count: nat, sizes: seq<nat>, free: FreeLists, b: Block)
    requires WellFormed(count, sizes, free) && Live(count, sizes, free, b)
    ensures WellFormed(count, sizes, Give(free, b))
    ensures forall c :: Live(count, sizes, Give(free, b), c) <==> Live(count, sizes, free, c) && c != b
    ensures Take(Give(free, b), b.pool) == free
  {
    var free' := Give(free, b);
    assert free'[b.pool][1..] == free[b.pool];
    forall c ensures Live(count, sizes, free', c) <==> Live(count, sizes, free, c) && c != b {
      if IsBlock(count, sizes, c) && c.pool == b.pool {
        assert c.chunk in free'[b.pool] <==> c.chunk == b.chunk || c.chunk in free[b.pool];
      }
    }
  }

  lemma {:induction false} AllocateThenDeallocate(free: FreeLists, i: nat)
    requires i < |free| && free[i] != []
    ensures Give(Take(free, i), Block(i, free[i][0])) == free
  {
    assert [free[i][0]] + free[i][1..] == free[i];
  }

  /** Chunks are conserved: those in use and those free make up each pool. */
  lemma {:induction false} ChunksConserved(count: nat, sizes: seq<nat>, free: FreeLists, i: nat)
    requires WellFormed(count, sizes, free) && i < |sizes|
    ensures |(set c | 0 <= c < count && Live(count, sizes, free, Block(i, c)))| + |free[i]| == count
  {
    DistinctHasSize(free[i]);
    var idle := Members(free[i]);
    assert idle <= Indices(count);
    assert (set c | 0 <= c < count && Live(count, sizes, free, Block(i, c))) == Indices(count) - idle;
  }

  ghost function Members(list: seq<Index>): (s: set<Index>)
    ensures forall c :: c in s <==> c in list
  {
    if list == [] then {} else {list[0]} + Members(list[1..])
  }

  lemma {:induction false} DistinctHasSize(list: seq<Index>)
    requires Distinct(list)
    ensures |Members(list)| == |list|
  {
    if list != [] {
      DistinctHasSize(list[1..]);
      assert list[0] !in Members(list[1..]);
    }
  }

  ghost function Indices(n: nat): (s: set<Index>)
    ensures forall c: nat :: c in s <==> c < n
    ensures |s| == n
  {
    if n == 0 then {} else Indices(n - 1) + {n - 1}
  }

  lemma MulGap(x: int, d: nat)
    requires 0 < d
    ensures x >= 1 ==> x * d >= d
    ensures x <= -1 ==> x * d + d <= 0
  {}

  lemma {:induction false} QuotientOfMultiple(n: nat, d: nat)
    requires 0 < d
    ensures (n * d) / d == n
  {
    var q := (n * d) / d;
    assert n * d - q * d == (n - q) * d;
    MulGap(n - q, d);
  }
}
