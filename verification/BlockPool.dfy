/** The block pool of section 8.4 of docs/distributed_coordination.md: a first-fit allocator over
    an array of marks, used by one caller at a time. */
module BlockPool {
  import opened Base

  /** The mark of a block that is taken; a free block is marked with the number of the next. */
  const INVALID_OFFSET := U64 - 1

  // ---- sizes ----------------------------------------------------------------------------

  /** The rounding up is done on 32 bits. */
  function BlocksFor(size: nat, blockSize: nat): nat
    requires blockSize > 0
  {
    ((size + blockSize - 1) % U32) / blockSize
  }

  /** The blocks are room enough, and none too many, if and only if the rounding up does not
      leave 32 bits. */
  lemma EnoughExactly(size: nat, blockSize: nat)
    requires size < U32 && 0 < blockSize < U32
    ensures BlocksFor(size, blockSize) * blockSize >= size <==> size + blockSize - 1 < U32
    ensures size > 0 && size + blockSize - 1 < U32 ==> (BlocksFor(size, blockSize) - 1) * blockSize < size
  {
    var rounded := (size + blockSize - 1) % U32;
    var n := rounded / blockSize;
    assert n * blockSize + rounded % blockSize == rounded;
    assert (n - 1) * blockSize == n * blockSize - blockSize;
    if size + blockSize - 1 >= U32 {
      assert rounded == size + blockSize - 1 - U32;
    }
  }

  /** The offset handed out for a block, a product of 32-bit numbers. */
  function OffsetOf(block: nat, blockSize: nat): nat {
    block * blockSize % U32
  }

  /** An offset leads back to its block if and only if it was not cut to 32 bits. */
  lemma OffsetNamesBlock(block: nat, blockSize: nat)
    requires blockSize > 0
    ensures OffsetOf(block, blockSize) / blockSize == block <==> block * blockSize < U32
  {
    BlockOfOffset(block, blockSize, OffsetOf(block, blockSize));
  }

  lemma BlockOfOffset(block: nat, blockSize: nat, offset: nat)
    requires blockSize > 0 && offset <= block * blockSize
    ensures offset / blockSize == block <==> offset == block * blockSize
  {
    var q := offset / blockSize;
    assert offset == q * blockSize + offset % blockSize;
    if q < block {
      MultiplesApart(q, block, blockSize);
    } else if block < q {
      MultiplesApart(block, q, blockSize);
    }
  }

  lemma {:induction false} MultiplesApart(a: nat, b: nat, n: nat)
    requires a < b
    ensures a * n + n <= b * n
    decreases b
  {
    assert b * n == (b - 1) * n + n;
    if a < b - 1 {
      MultiplesApart(a, b - 1, n);
    }
  }

  // ---- searching ------------------------------------------------------------------------

  /** Marks by block: whether it is free. */
  type Marks = seq<bool>

  ghost predicate FreeRun(free: Marks, i: nat, n: nat) {
    i + n <= |free| && forall k :: i <= k < i + n ==> free[k]
  }

  /** A search for `n` blocks may end at a free block, which must be followed by the rest. */
  ghost predicate Candidate(free: Marks, i: nat, n: nat) {
    i < |free| && free[i] && FreeRun(free, i, n)
  }

  /** The lowest candidate from `i` on, or the number of blocks. */
  ghost function FirstFit(free: Marks, n: nat, i: nat): (r: nat)
    requires i <= |free|
    ensures i <= r <= |free| && (r < |free| ==> Candidate(free, r, n))
    ensures forall k :: i <= k < r ==> !Candidate(free, k, n)
    decreases |free| - i
  {
    if i == |free| || Candidate(free, i, n) then i else FirstFit(free, n, i + 1)
  }

  function Fill(free: Marks, i: nat, n: nat, mark: bool): (free': Marks)
    requires i + n <= |free|
    ensures |free'| == |free|
    ensures forall k :: 0 <= k < |free| ==> free'[k] == if i <= k < i + n then mark else free[k]
  {
    free[..i] + seq(n, _ => mark) + free[i + n..]
  }

  // ---- runs -----------------------------------------------------------------------------

  datatype Extent = Extent(start: nat, count: nat)

  /** The marks and what was allocated and not yet freed. */
  datatype Pool = Pool(free: Marks, live: seq<Extent>)

  /** `Frees(k)` gives back the extent at place `k`. */
  datatype Op = Allocates(blocks: nat) | Frees(k: nat)

  ghost function Do(p: Pool, op: Op): Pool
    requires InRange(p)
  {
    match op
    case Allocates(n) =>
      var i := FirstFit(p.free, n, 0);
      if i == |p.free| then p else Pool(Fill(p.free, i, n, false), p.live + [Extent(i, n)])
    case Frees(k) =>
      if k >= |p.live| then p
      else Pool(Fill(p.free, p.live[k].start, p.live[k].count, true), p.live[..k] + p.live[k + 1..])
  }

  ghost predicate InRange(p: Pool) {
    forall k :: 0 <= k < |p.live| ==> p.live[k].start + p.live[k].count <= |p.free|
  }

  predicate In(e: Extent, block: nat) {
    e.start <= block < e.start + e.count
  }

  ghost predicate Taken(live: seq<Extent>, block: nat) {
    exists k :: 0 <= k < |live| && In(live[k], block)
  }

  ghost predicate Disjoint(live: seq<Extent>) {
    forall j, k, b: nat {:trigger In(live[j], b), In(live[k], b)} ::
      0 <= j < k < |live| && In(live[j], b) ==> !In(live[k], b)
  }

  /** Which blocks are free follows from the live extents alone; the last is never free. */
  ghost predicate Follows(p: Pool) {
    forall b :: 0 <= b < |p.free| ==> (p.free[b] <==> b != |p.free| - 1 && !Taken(p.live, b))
  }

  ghost predicate Spares(p: Pool) {
    forall k :: 0 <= k < |p.live| ==> p.live[k].start + p.live[k].count <= |p.free| - 1
  }

  ghost predicate Inv(p: Pool) {
    p.free != [] && InRange(p) && Spares(p) && Disjoint(p.live) && Follows(p)
  }

  function Start(blocks: nat): Pool
    requires blocks > 0
  {
    Pool(seq(blocks, b => b != blocks - 1), [])
  }

  lemma AllocateKeeps(p: Pool, n: nat)
    requires Inv(p)
    ensures Inv(Do(p, Allocates(n)))
  {
    hide FirstFit, Fill;
    var p', i := Do(p, Allocates(n)), FirstFit(p.free, n, 0);
    if i < |p.free| {
      var e := Extent(i, n);
      assert n > 0 ==> p.free[i + n - 1];
      forall b | 0 <= b < |p.free|
        ensures Taken(p'.live, b) <==> Taken(p.live, b) || In(e, b)
      {
        assert In(e, b) ==> In(p'.live[|p.live|], b);
        assert forall k :: 0 <= k < |p.live| ==> p'.live[k] == p.live[k];
      }
      forall j, b: nat | 0 <= j < |p.live| && In(p.live[j], b)
        ensures !In(e, b)
      {
        assert Taken(p.live, b);
      }
    }
  }

  lemma FreeKeeps(p: Pool, k: nat)
    requires Inv(p)
    ensures Inv(Do(p, Frees(k)))
  {
    var p' := Do(p, Frees(k));
    if k < |p.live| {
      var e := p.live[k];
      assert forall j :: 0 <= j < |p'.live| ==> p'.live[j] == p.live[if j < k then j else j + 1];
      forall b: nat | b < |p.free|
        ensures Taken(p'.live, b) <==> Taken(p.live, b) && !In(e, b)
      {
        if Taken(p.live, b) && !In(e, b) {
          var j :| 0 <= j < |p.live| && In(p.live[j], b);
          assert In(p'.live[if j < k then j else j - 1], b);
        }
      }
    }
  }

  ghost function After(blocks: nat, ops: seq<Op>): (p: Pool)
    requires blocks > 0
    ensures Inv(p) && |p.free| == blocks
    decreases |ops|
  {
    if ops == [] then Start(blocks)
    else
      var last := |ops| - 1;
      var before := After(blocks, ops[..last]);
      DoKeeps(before, ops[last]);
      Do(before, ops[last])
  }

  lemma DoKeeps(p: Pool, op: Op)
    requires Inv(p)
    ensures Inv(Do(p, op)) && |Do(p, op).free| == |p.free|
  {
    hide Inv;
    match op {
      case Allocates(n) => AllocateKeeps(p, n);
      case Frees(k) => FreeKeeps(p, k);
    }
  }

  /** Over any allocations and matching frees: live extents are in range and share no block, the
      last block is in none, and exactly the other blocks outside of them are free. */
  lemma LiveExtentsApart(blocks: nat, ops: seq<Op>)
    requires blocks > 0
    ensures var p := After(blocks, ops);
            && (forall k :: 0 <= k < |p.live| ==> p.live[k].start + p.live[k].count <= blocks - 1)
            && (forall j, k, b: nat {:trigger In(p.live[j], b), In(p.live[k], b)} ::
                  0 <= j < k < |p.live| && In(p.live[j], b) ==> !In(p.live[k], b))
            && forall b :: 0 <= b < blocks ==>
                 (p.free[b] <==> b < blocks - 1 && forall k :: 0 <= k < |p.live| ==> !In(p.live[k], b))
  {
    hide After;
  }

  /** Even an allocation of no blocks looks for one. */
  function Sought(n: nat): nat {
    if n == 0 then 1 else n
  }

  /** An allocation fails if and only if there is no long enough run of free blocks anywhere,
      and otherwise takes the lowest. */
  lemma FailsExactly(p: Pool, n: nat)
    requires Inv(p)
    ensures Do(p, Allocates(n)) == p <==> forall i: nat :: !FreeRun(p.free, i, Sought(n))
    ensures forall i: nat :: FreeRun(p.free, i, Sought(n)) ==>
              var p' := Do(p, Allocates(n));
              && |p'.live| == |p.live| + 1 && p'.live[|p.live|].count == n
              && p'.live[|p.live|].start <= i && FreeRun(p.free, p'.live[|p.live|].start, Sought(n))
  {
    var at := FirstFit(p.free, n, 0);
    forall i: nat
      ensures FreeRun(p.free, i, Sought(n)) <==> Candidate(p.free, i, n)
    {
      CandidateIsRun(p.free, i, n);
    }
    assert at < |p.free| ==> |Do(p, Allocates(n)).live| == |p.live| + 1 && FreeRun(p.free, at, Sought(n));
  }

  lemma CandidateIsRun(free: Marks, i: nat, n: nat)
    ensures FreeRun(free, i, Sought(n)) <==> Candidate(free, i, n)
  {
    assert FreeRun(free, i, Sought(n)) ==> free[i];
  }

  /** Freeing an extent undoes its allocation, whatever was allocated and freed in between: the
      free blocks are those of the pool in which it had not been allocated. */
  lemma FreeRestores(p: Pool, q: Pool, k: nat)
    requires Inv(p) && Inv(q) && |p.free| == |q.free| && k < |p.live|
    requires multiset(q.live) + multiset{p.live[k]} == multiset(p.live)
    ensures Do(p, Frees(k)).free == q.free
  {
    var r := Do(p, Frees(k));
    FreeKeeps(p, k);
    assert p.live == p.live[..k] + [p.live[k]] + p.live[k + 1..];
    assert multiset(p.live) == multiset(r.live) + multiset{p.live[k]};
    Cancel(multiset(r.live), multiset(q.live), multiset{p.live[k]});
    forall b: nat | b < |p.free|
      ensures r.free[b] == q.free[b]
    {
      if Taken(r.live, b) {
        SameTaken(r.live, q.live, b);
      }
      if Taken(q.live, b) {
        SameTaken(q.live, r.live, b);
      }
    }
  }

  lemma Cancel<T>(a: multiset<T>, b: multiset<T>, c: multiset<T>)
    requires a + c == b + c
    ensures a == b
  {
    assert (a + c) - c == a && (b + c) - c == b;
  }

  lemma SameTaken(a: seq<Extent>, c: seq<Extent>, b: nat)
    requires multiset(a) == multiset(c) && Taken(a, b)
    ensures Taken(c, b)
  {
    var k :| 0 <= k < |a| && In(a[k], b);
    assert a[k] in multiset(c);
  }

  /** A size that an allocation takes blocks for. */
  predicate Reserves(size: nat, blockSize: nat) {
    size > 0 && size + blockSize - 1 < U32
  }

  lemma ReservesSomeBlock(size: nat, blockSize: nat)
    requires size < U32 && 0 < blockSize < U32
    ensures BlocksFor(size, blockSize) > 0 <==> Reserves(size, blockSize)
  {
    var n := BlocksFor(size, blockSize);
    var rounded := (size + blockSize - 1) % U32;
    assert rounded == blockSize * n + rounded % blockSize;
    assert n >= 1 ==> blockSize * n >= blockSize;
  }

  /** A successful allocation takes the block it hands out if and only if some bytes were asked
      for and rounding them up stays inside 32 bits; otherwise the very next allocation of the
      same size hands out the same block. */
  lemma TakesItsBlockExactly(p: Pool, size: nat, blockSize: nat)
    requires Inv(p) && size < U32 && 0 < blockSize < U32
    requires FirstFit(p.free, BlocksFor(size, blockSize), 0) < |p.free|
    ensures var n := BlocksFor(size, blockSize);
            var i, p' := FirstFit(p.free, n, 0), Do(p, Allocates(n));
            && (p'.free[i] <==> !Reserves(size, blockSize))
            && (FirstFit(p'.free, n, 0) == i <==> !Reserves(size, blockSize))
            && (!Reserves(size, blockSize) ==> p'.free == p.free)
  {
    hide BlocksFor, Reserves;
    ReservesSomeBlock(size, blockSize);
    var n := BlocksFor(size, blockSize);
    var i := FirstFit(p.free, n, 0);
    var free' := Fill(p.free, i, n, false);
    assert n == 0 ==> free' == p.free;
    assert Candidate(p.free, i, n);
    assert FirstFit(free', n, 0) == i ==> Candidate(free', i, n);
  }

  /** Allocating no blocks hands out the very block that the next allocation of one takes. */
  lemma EmptyAllocationTakesNothing(p: Pool)
    requires Inv(p) && FirstFit(p.free, 0, 0) < |p.free|
    ensures var p' := Do(p, Allocates(0));
            p'.free == p.free && FirstFit(p'.free, 1, 0) == FirstFit(p.free, 0, 0)
  {
    var at, one := FirstFit(p.free, 0, 0), FirstFit(p.free, 1, 0);
    assert Fill(p.free, at, 0, false) == p.free;
    assert Candidate(p.free, at, 1);
    assert one < |p.free| ==> Candidate(p.free, one, 0);
  }

  /** Two sizes that take nothing: zero, and almost 4 GiB. */
  lemma SizesThatTakeNothing()
    ensures BlocksFor(0, 4096) == 0 && !Reserves(0, 4096)
    ensures BlocksFor(0xFFFF_FFFF, 4096) == 0 && !Reserves(0xFFFF_FFFF, 4096)
  {
  }

  /** So live extents of sizes that take their blocks start at different blocks, and by
      LiveExtentsApart share none. */
  lemma ReservedStartApart(p: Pool, j: nat, k: nat, sizeJ: nat, sizeK: nat, blockSize: nat)
    requires Inv(p) && j < k < |p.live| && sizeJ < U32 && sizeK < U32 && 0 < blockSize < U32
    requires p.live[j].count == BlocksFor(sizeJ, blockSize) && p.live[k].count == BlocksFor(sizeK, blockSize)
    requires Reserves(sizeJ, blockSize) && Reserves(sizeK, blockSize)
    ensures p.live[j].start != p.live[k].start
  {
    hide BlocksFor, Reserves;
    ReservesSomeBlock(sizeJ, blockSize);
    ReservesSomeBlock(sizeK, blockSize);
    assert In(p.live[j], p.live[j].start) && In(p.live[k], p.live[k].start);
  }

  // ---- conservation ---------------------------------------------------------------------

  ghost function FreeCount(free: Marks): nat {
    if free == [] then 0 else FreeCount(free[..|free| - 1]) + if free[|free| - 1] then 1 else 0
  }

  ghost function Total(live: seq<Extent>): nat {
    if live == [] then 0 else Total(live[..|live| - 1]) + live[|live| - 1].count
  }

  lemma {:induction false} CountUpdated(free: Marks, i: nat, mark: bool)
    requires i < |free|
    ensures FreeCount(free[i := mark]) + (if free[i] then 1 else 0) == FreeCount(free) + if mark then 1 else 0
    decreases |free|
  {
    var last := |free| - 1;
    if i < last {
      CountUpdated(free[..last], i, mark);
      assert free[i := mark][..last] == free[..last][i := mark];
    } else {
      assert free[i := mark][..last] == free[..last];
    }
  }

  lemma FillStep(free: Marks, i: nat, n: nat, mark: bool)
    requires 0 < n && i + n <= |free|
    ensures Fill(free, i, n, mark) == Fill(free, i, n - 1, mark)[i + n - 1 := mark]
    ensures Fill(free, i, n - 1, mark)[i + n - 1] == free[i + n - 1]
    ensures Fill(free, i, 0, mark) == free
  {
  }

  lemma {:induction false} CountFilled(free: Marks, i: nat, n: nat, mark: bool)
    requires i + n <= |free| && forall k :: i <= k < i + n ==> free[k] != mark
    ensures FreeCount(Fill(free, i, n, mark)) == if mark then FreeCount(free) + n else FreeCount(free) - n
    decreases n
  {
    hide FreeCount;
    if n == 0 {
      assert Fill(free, i, n, mark) == free;
    } else {
      CountFilled(free, i, n - 1, mark);
      CountUpdated(Fill(free, i, n - 1, mark), i + n - 1, mark);
      FillStep(free, i, n, mark);
    }
  }

  lemma {:induction false} TotalWithout(live: seq<Extent>, k: nat)
    requires k < |live|
    ensures Total(live) == Total(live[..k] + live[k + 1..]) + live[k].count
    decreases |live|
  {
    var last := |live| - 1;
    if k < last {
      TotalWithout(live[..last], k);
      assert (live[..k] + live[k + 1..])[..last - 1] == live[..last][..k] + live[..last][k + 1..];
    } else {
      assert live[..k] + live[k + 1..] == live[..last];
    }
  }

  lemma {:induction false} StartCount(blocks: nat)
    ensures FreeCount(seq(blocks, _ => true)) == blocks
    ensures blocks > 0 ==> FreeCount(Start(blocks).free) == blocks - 1
    decreases blocks
  {
    if blocks > 0 {
      StartCount(blocks - 1);
      assert seq(blocks, _ => true)[..blocks - 1] == seq(blocks - 1, _ => true);
      assert Start(blocks).free[..blocks - 1] == seq(blocks - 1, _ => true);
    }
  }

  lemma AllocateConserves(p: Pool, n: nat)
    requires Inv(p)
    ensures var p' := Do(p, Allocates(n)); FreeCount(p'.free) + Total(p'.live) == FreeCount(p.free) + Total(p.live)
  {
    hide FreeCount, Fill, FirstFit, Follows, Disjoint, Spares;
    var i := FirstFit(p.free, n, 0);
    if i < |p.free| {
      CountFilled(p.free, i, n, false);
      assert (p.live + [Extent(i, n)])[..|p.live|] == p.live;
    }
  }

  lemma FreeConserves(p: Pool, k: nat)
    requires Inv(p)
    ensures var p' := Do(p, Frees(k)); FreeCount(p'.free) + Total(p'.live) == FreeCount(p.free) + Total(p.live)
  {
    hide FreeCount, Total, Fill, FirstFit;
    if k < |p.live| {
      assert forall b :: In(p.live[k], b) ==> Taken(p.live, b);
      CountFilled(p.free, p.live[k].start, p.live[k].count, true);
      TotalWithout(p.live, k);
    }
  }

  lemma DoConserves(p: Pool, op: Op)
    requires Inv(p)
    ensures FreeCount(Do(p, op).free) + Total(Do(p, op).live) == FreeCount(p.free) + Total(p.live)
  {
    hide Inv, Do, FreeCount, Total;
    match op {
      case Allocates(n) => AllocateConserves(p, n);
      case Frees(k) => FreeConserves(p, k);
    }
  }

  /** No block is lost or made: free blocks and live extents always add up to all blocks but the
      last, which is never handed out. */
  lemma {:induction false} BlocksConserved(blocks: nat, ops: seq<Op>)
    requires blocks > 0
    ensures FreeCount(After(blocks, ops).free) + Total(After(blocks, ops).live) == blocks - 1
    decreases |ops|
  {
    hide Do, Inv;
    if ops == [] {
      StartCount(blocks);
    } else {
      BlocksConserved(blocks, ops[..|ops| - 1]);
      DoConserves(After(blocks, ops[..|ops| - 1]), ops[|ops| - 1]);
    }
  }

  // ---- the pool in memory ---------------------------------------------------------------

  class DataRegion {
    const nextOffset: array<nat>
    const blockSize: nat
    ghost var pool: Pool

    ghost predicate Valid()
      reads this, nextOffset
    {
      && 0 < nextOffset.Length < U32 && 0 < blockSize < U32
      && Inv(pool) && |pool.free| == nextOffset.Length
      && forall k :: 0 <= k < nextOffset.Length ==> (pool.free[k] <==> nextOffset[k] != INVALID_OFFSET)
    }

    constructor (totalBlocks: nat, blockSize: nat)
      requires 0 < totalBlocks < U32 && 0 < blockSize < U32
      ensures Valid() && pool == Start(totalBlocks) && fresh(nextOffset) && this.blockSize == blockSize
    {
      this.blockSize := blockSize;
      nextOffset := new nat[totalBlocks];
      pool := Start(totalBlocks);
      new;
      var i := 0;
      while i < totalBlocks - 1
        modifies nextOffset
        invariant 0 <= i <= totalBlocks - 1
        invariant forall k :: 0 <= k < i ==> nextOffset[k] == k + 1
      {
        nextOffset[i] := i + 1;
        i := i + 1;
      }
      nextOffset[totalBlocks - 1] := INVALID_OFFSET;
      assert After(totalBlocks, []) == pool;
    }

    method Allocate(size: nat) returns (offset: nat)
      requires Valid() && size < U32
      modifies this`pool, nextOffset
      ensures Valid()
      ensures var n, was := BlocksFor(size, blockSize), old(pool);
              var i := FirstFit(was.free, n, 0);
              && pool == Do(was, Allocates(n))
              && offset == if i == nextOffset.Length then INVALID_OFFSET else OffsetOf(i, blockSize)
    {
      hide Disjoint, Follows, Spares, BlocksFor;
      var blocksNeeded := RoundUp(size);
      DoKeeps(pool, Allocates(blocksNeeded));
      var i := 0;
      while i < nextOffset.Length
        invariant 0 <= i <= nextOffset.Length && Valid() && pool == old(pool)
        invariant FirstFit(pool.free, blocksNeeded, 0) == FirstFit(pool.free, blocksNeeded, i)
      {
        if nextOffset[i] != INVALID_OFFSET {
          var long := RunIsLong(i, blocksNeeded);
          if long {
            Mark(i, blocksNeeded);
            pool := Do(pool, Allocates(blocksNeeded));
            return OffsetOf(i, blockSize);
          }
        }
        i := i + 1;
      }
      return INVALID_OFFSET;
    }

    method RunIsLong(i: nat, blocksNeeded: nat) returns (long: bool)
      requires Valid() && i < nextOffset.Length && pool.free[i]
      ensures long <==> Candidate(pool.free, i, blocksNeeded)
    {
      var consecutive, j := 1, i;
      while consecutive < blocksNeeded && j + 1 < nextOffset.Length
        invariant j == i + consecutive - 1 < nextOffset.Length
        invariant FreeRun(pool.free, i, consecutive)
        invariant consecutive <= blocksNeeded || consecutive == 1
      {
        if nextOffset[j + 1] == INVALID_OFFSET {
          break;
        }
        consecutive, j := consecutive + 1, j + 1;
      }
      return consecutive >= blocksNeeded;
    }

    method Mark(i: nat, n: nat)
      requires i + n <= nextOffset.Length
      modifies nextOffset
      ensures forall k :: 0 <= k < nextOffset.Length ==>
                nextOffset[k] == if i <= k < i + n then INVALID_OFFSET else old(nextOffset[k])
    {
      var k := i;
      while k < i + n
        invariant i <= k <= i + n
        invariant forall m :: 0 <= m < nextOffset.Length ==>
                    nextOffset[m] == if i <= m < k then INVALID_OFFSET else old(nextOffset[m])
      {
        nextOffset[k] := INVALID_OFFSET;
        k := k + 1;
      }
    }

    /** `k` is the place of the extent given back among the live ones. */
    method Free(offset: nat, size: nat, ghost k: nat)
      requires Valid() && size < U32 && k < |pool.live|
      requires pool.live[k] == Extent(offset / blockSize, BlocksFor(size, blockSize))
      modifies this`pool, nextOffset
      ensures Valid() && pool == Do(old(pool), Frees(k))
    {
      hide Disjoint, Follows, Spares, BlocksFor;
      DoKeeps(pool, Frees(k));
      var startBlock := offset / blockSize;
      var blocksToFree := RoundUp(size);
      Release(startBlock, blocksToFree);
      pool := Do(pool, Frees(k));
    }

    method RoundUp(size: nat) returns (blocks: nat)
      requires blockSize > 0
      ensures blocks == BlocksFor(size, blockSize)
    {
      blocks := (size + blockSize - 1) % U32 / blockSize;
    }

    method Release(startBlock: nat, n: nat)
      requires startBlock + n <= nextOffset.Length
      modifies nextOffset
      ensures forall k :: 0 <= k < nextOffset.Length ==>
                nextOffset[k] == if startBlock <= k < startBlock + n then k + 1 else old(nextOffset[k])
    {
      var i := startBlock;
      while i < startBlock + n
        invariant startBlock <= i <= startBlock + n
        invariant forall m :: 0 <= m < nextOffset.Length ==>
                    nextOffset[m] == if startBlock <= m < i then m + 1 else old(nextOffset[m])
      {
        nextOffset[i] := i + 1;
        i := i + 1;
      }
    }
  }
}
