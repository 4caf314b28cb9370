/** The first-fit allocator of FreeRTOS/src/heap_4.c.

    The pure part describes the heap as a sorted list of free blocks plus a map of the blocks the
    application owns, and proves what every run of allocations and releases keeps.  The class
    Allocator is the code itself: headers stored inside the heap memory, a linked list threaded
    through the free ones, and a running counter of free bytes. */
module Heap4 {
  const BYTE_ALIGNMENT: nat := 8
  // sizeof(BlockLink_t) on the 32-bit target, already a multiple of the alignment
  const HEAP_STRUCT_SIZE: nat := 8
  const MINIMUM_BLOCK_SIZE: nat := 2 * HEAP_STRUCT_SIZE
  const BLOCK_ALLOCATED_BIT: nat := 0x8000_0000
  const NULL: nat := 0

  predicate Aligned(a: nat) { a % BYTE_ALIGNMENT == 0 }

  datatype Block = Block(addr: nat, size: nat) {
    function End(): nat { addr + size }
    predicate Covers(p: nat) { addr <= p < End() }
  }

  /** What the heap contains: `free` in address order, `live` from header address to block size. */
  datatype Heap = Heap(start: nat, end: nat, free: seq<Block>, live: map<nat, nat>)

  // ---------------------------------------------------------------------------------------------
  // The free list

  /** Sorted by address, with a gap between neighbours: no two free blocks are adjacent. */
  ghost predicate Separated(free: seq<Block>) {
    && (forall k | 0 <= k < |free| :: 0 < free[k].size)
    && (forall i, j | 0 <= i < j < |free| :: free[i].End() < free[j].addr)
  }

  ghost predicate InFree(free: seq<Block>, p: nat) {
    exists k | 0 <= k < |free| :: free[k].Covers(p)
  }

  function SumSizes(free: seq<Block>): nat {
    if |free| == 0 then 0 else free[0].size + SumSizes(free[1..])
  }

  lemma {:induction false} SumSizesSplit(a: seq<Block>, b: seq<Block>)
    ensures SumSizes(a + b) == SumSizes(a) + SumSizes(b)
  {
    if |a| == 0 {
      assert a + b == b;
    } else {
      SumSizesSplit(a[1..], b);
      assert (a + b)[1..] == a[1..] + b;
    }
  }

  lemma {:induction false} SumSizesAt(free: seq<Block>, k: nat)
    requires k < |free|
    ensures SumSizes(free) == SumSizes(free[..k]) + free[k].size + SumSizes(free[k + 1..])
  {
    SumSizesSplit(free[..k], free[k..]);
    assert free == free[..k] + free[k..];
    assert free[k..][1..] == free[k + 1..];
  }

  /** How many leading blocks lie below `addr`. */
  function Position(free: seq<Block>, addr: nat): (i: nat)
    ensures i <= |free|
    ensures forall k | 0 <= k < i :: free[k].addr < addr
    ensures i < |free| ==> addr <= free[i].addr
  {
    if |free| == 0 || addr <= free[0].addr then 0 else 1 + Position(free[1..], addr)
  }

  lemma SeparatedConcat(a: seq<Block>, b: seq<Block>)
    requires Separated(a) && Separated(b)
    requires |a| > 0 && |b| > 0 ==> a[|a| - 1].End() < b[0].addr
    ensures Separated(a + b)
  {
    var r := a + b;
    forall i, j | 0 <= i < j < |r| ensures r[i].End() < r[j].addr {
      if i < |a| <= j {
        assert a[i].End() <= a[|a| - 1].End();
        assert b[0].addr <= b[j - |a|].addr;
      }
    }
  }

  lemma InFreeConcat(a: seq<Block>, b: seq<Block>, p: nat)
    ensures InFree(a + b, p) <==> InFree(a, p) || InFree(b, p)
  {
    var r := a + b;
    if InFree(a, p) {
      var k :| 0 <= k < |a| && a[k].Covers(p);
      assert r[k].Covers(p);
    }
    if InFree(b, p) {
      var k :| 0 <= k < |b| && b[k].Covers(p);
      assert r[|a| + k].Covers(p);
    }
  }

  /** `free` with the blocks lo..hi replaced by `mid`. */
  function Splice(free: seq<Block>, lo: nat, hi: nat, mid: seq<Block>): seq<Block>
    requires lo <= hi <= |free|
  {
    free[..lo] + mid + free[hi..]
  }

  lemma SpliceSeparated(free: seq<Block>, lo: nat, hi: nat, mid: seq<Block>)
    requires lo <= hi <= |free| && Separated(free) && Separated(mid) && |mid| <= 1
    requires |mid| == 1 && 0 < lo ==> free[lo - 1].End() < mid[0].addr
    requires |mid| == 1 && hi < |free| ==> mid[0].End() < free[hi].addr
    ensures Separated(Splice(free, lo, hi, mid))
  {
    SeparatedConcat(free[..lo], mid);
    SeparatedConcat(free[..lo] + mid, free[hi..]);
  }

  lemma Whole(free: seq<Block>, lo: nat, hi: nat)
    requires lo <= hi <= |free|
    ensures free == free[..lo] + free[lo..hi] + free[hi..]
  {
  }

  lemma SpliceCovers(free: seq<Block>, lo: nat, hi: nat, mid: seq<Block>, p: nat)
    requires lo <= hi <= |free|
    ensures InFree(Splice(free, lo, hi, mid), p) <==> InFree(free[..lo], p) || InFree(mid, p) || InFree(free[hi..], p)
    ensures InFree(free, p) <==> InFree(free[..lo], p) || InFree(free[lo..hi], p) || InFree(free[hi..], p)
  {
    InFreeConcat(free[..lo] + mid, free[hi..], p);
    InFreeConcat(free[..lo], mid, p);
    InFreeConcat(free[..lo] + free[lo..hi], free[hi..], p);
    InFreeConcat(free[..lo], free[lo..hi], p);
    Whole(free, lo, hi);
  }

  lemma SpliceSum(free: seq<Block>, lo: nat, hi: nat, mid: seq<Block>)
    requires lo <= hi <= |free|
    ensures SumSizes(Splice(free, lo, hi, mid)) == SumSizes(free) - SumSizes(free[lo..hi]) + SumSizes(mid)
  {
    SumSizesSplit(free[..lo] + mid, free[hi..]);
    SumSizesSplit(free[..lo], mid);
    SumSizesSplit(free[..lo] + free[lo..hi], free[hi..]);
    SumSizesSplit(free[..lo], free[lo..hi]);
    Whole(free, lo, hi);
  }

  ghost predicate Disjoint(free: seq<Block>, b: Block) {
    && 0 < b.size
    && forall k | 0 <= k < |free| :: free[k].End() <= b.addr || b.End() <= free[k].addr
  }

  // Which neighbours of position i the released block b touches, and the block they form together.
  predicate TouchesFront(free: seq<Block>, i: nat, b: Block)
    requires i <= |free|
  {
    0 < i && free[i - 1].End() == b.addr
  }

  predicate TouchesBehind(free: seq<Block>, i: nat, b: Block)
    requires i <= |free|
  {
    i < |free| && b.End() == free[i].addr
  }

  function Merged(free: seq<Block>, i: nat, b: Block): (m: Block)
    requires i <= |free|
    ensures m.addr == if TouchesFront(free, i, b) then free[i - 1].addr else b.addr
    ensures m.End() == if TouchesBehind(free, i, b) then free[i].End() else b.End()
  {
    var addr := if TouchesFront(free, i, b) then free[i - 1].addr else b.addr;
    var end := if TouchesBehind(free, i, b) then free[i].End() else b.End();
    Block(addr, end - addr)
  }

  /** The list after `b` is released into it: merged with the block in front, the block behind,
      both or neither. */
  function Insert(free: seq<Block>, b: Block): seq<Block> {
    InsertAt(free, Position(free, b.addr), b)
  }

  function InsertAt(free: seq<Block>, i: nat, b: Block): seq<Block>
    requires i <= |free|
  {
    var lo := if TouchesFront(free, i, b) then i - 1 else i;
    var hi := if TouchesBehind(free, i, b) then i + 1 else i;
    Splice(free, lo, hi, [Merged(free, i, b)])
  }

  lemma InsertFits(free: seq<Block>, b: Block)
    requires Separated(free) && Disjoint(free, b)
    ensures var i := Position(free, b.addr);
            && (forall x | 0 <= x < i :: free[x].End() <= b.addr)
            && (forall x | i <= x < |free| :: b.End() <= free[x].addr)
  {
    var i := Position(free, b.addr);
    forall x | i <= x < |free| ensures b.End() <= free[x].addr {
      assert free[i].addr <= free[x].addr;
    }
  }

  lemma InsertSum(free: seq<Block>, b: Block)
    ensures SumSizes(Insert(free, b)) == SumSizes(free) + b.size
  {
    var i := Position(free, b.addr);
    var lo := if TouchesFront(free, i, b) then i - 1 else i;
    var hi := if TouchesBehind(free, i, b) then i + 1 else i;
    SpliceSum(free, lo, hi, [Merged(free, i, b)]);
    SumSizesSplit(free[lo..i], free[i..hi]);
    assert free[lo..hi] == free[lo..i] + free[i..hi];
  }

  lemma InsertSeparated(free: seq<Block>, b: Block)
    requires Separated(free) && Disjoint(free, b)
    ensures Separated(Insert(free, b))
  {
    InsertFits(free, b);
    var i := Position(free, b.addr);
    MergedFits(free, i, b);
    hide Separated, Splice;
    var lo := if TouchesFront(free, i, b) then i - 1 else i;
    var hi := if TouchesBehind(free, i, b) then i + 1 else i;
    SpliceSeparated(free, lo, hi, [Merged(free, i, b)]);
  }

  // The merged block lies apart from the neighbours it has not absorbed.
  lemma MergedFits(free: seq<Block>, i: nat, b: Block)
    requires Separated(free) && Disjoint(free, b) && i <= |free|
    requires (forall x | 0 <= x < i :: free[x].End() <= b.addr) && forall x | i <= x < |free| :: b.End() <= free[x].addr
    ensures var m := Merged(free, i, b);
            var lo := if TouchesFront(free, i, b) then i - 1 else i;
            var hi := if TouchesBehind(free, i, b) then i + 1 else i;
            && Separated([m]) && (0 < lo ==> free[lo - 1].End() < m.addr) && (hi < |free| ==> m.End() < free[hi].addr)
  {
  }

  /** Releasing a block adds exactly its bytes to the free bytes. */
  lemma InsertCovers(free: seq<Block>, b: Block, p: nat)
    ensures InFree(Insert(free, b), p) <==> InFree(free, p) || b.Covers(p)
  {
    var i := Position(free, b.addr);
    var lo := if TouchesFront(free, i, b) then i - 1 else i;
    var hi := if TouchesBehind(free, i, b) then i + 1 else i;
    var m := Merged(free, i, b);
    SpliceCovers(free, lo, hi, [m], p);
    OneCovers([m], p);
    MergedCovers(free, i, b, p);
    InFreeConcat(free[lo..i], free[i..hi], p);
    assert free[lo..hi] == free[lo..i] + free[i..hi];
    OneCovers(free[lo..i], p);
    OneCovers(free[i..hi], p);
  }

  lemma MergedCovers(free: seq<Block>, i: nat, b: Block, p: nat)
    requires i <= |free|
    ensures Merged(free, i, b).Covers(p) <==>
              || (TouchesFront(free, i, b) && free[i - 1].Covers(p))
              || b.Covers(p)
              || (TouchesBehind(free, i, b) && free[i].Covers(p))
  {
  }

  lemma OneCovers(f: seq<Block>, p: nat)
    requires |f| <= 1
    ensures InFree(f, p) <==> |f| == 1 && f[0].Covers(p)
  {
  }

  /** A free list is determined by the bytes it covers. */
  lemma {:induction false} SeparatedUnique(f: seq<Block>, g: seq<Block>)
    requires Separated(f) && Separated(g)
    requires forall p: nat :: InFree(f, p) <==> InFree(g, p)
    ensures f == g
  {
    if |f| == 0 || |g| == 0 {
      if |f| != 0 { assert f[0].Covers(f[0].addr); assert InFree(f, f[0].addr); }
      if |g| != 0 { assert g[0].Covers(g[0].addr); assert InFree(g, g[0].addr); }
    } else {
      FirstBlock(f, g);
      FirstBlock(g, f);
      forall p: nat ensures InFree(f[1..], p) <==> InFree(g[1..], p) {
        TailCovers(f, p);
        TailCovers(g, p);
      }
      SeparatedUnique(f[1..], g[1..]);
      assert f == [f[0]] + f[1..] && g == [g[0]] + g[1..];
    }
  }

  lemma TailCovers(f: seq<Block>, p: nat)
    requires Separated(f) && |f| > 0
    ensures InFree(f[1..], p) <==> InFree(f, p) && f[0].End() <= p
  {
    InFreeConcat(f[..1], f[1..], p);
    assert f == f[..1] + f[1..];
    OneCovers(f[..1], p);
    if InFree(f[1..], p) {
      var k :| 0 <= k < |f[1..]| && f[1..][k].Covers(p);
      assert f[0].End() < f[k + 1].addr;
    }
  }

  lemma FirstBlock(f: seq<Block>, g: seq<Block>)
    requires Separated(f) && Separated(g) && |f| > 0 && |g| > 0
    requires forall p: nat :: InFree(f, p) <==> InFree(g, p)
    ensures f[0].addr <= g[0].addr
    ensures f[0].addr == g[0].addr ==> f[0].End() >= g[0].End()
  {
    assert g[0].Covers(g[0].addr);
    assert InFree(g, g[0].addr);
    var k :| 0 <= k < |f| && f[k].Covers(g[0].addr);
    assert k > 0 ==> f[0].End() < f[k].addr;
    if f[0].addr == g[0].addr && f[0].End() < g[0].End() {
      var p := f[0].End();
      assert g[0].Covers(p);
      assert InFree(g, p);
    }
  }

  // ---------------------------------------------------------------------------------------------
  // The heap: every byte is in exactly one free or one live block

  ghost predicate InLive(live: map<nat, nat>, p: nat) {
    exists a | a in live :: Block(a, live[a]).Covers(p)
  }

  ghost predicate Inside(h: Heap, b: Block) {
    Aligned(b.addr) && Aligned(b.size) && h.start <= b.addr && b.End() <= h.end
  }

  ghost predicate FreeInside(h: Heap) {
    forall k | 0 <= k < |h.free| :: Inside(h, h.free[k])
  }

  ghost predicate LiveInside(h: Heap) {
    forall a | a in h.live :: MINIMUM_BLOCK_SIZE <= h.live[a] && Inside(h, Block(a, h.live[a]))
  }

  ghost predicate LiveApart(live: map<nat, nat>) {
    forall a, b | a in live && b in live && a < b :: a + live[a] <= b
  }

  ghost predicate Inv(h: Heap) {
    && 0 < h.start < h.end < h.start + BLOCK_ALLOCATED_BIT
    && Aligned(h.start) && Aligned(h.end)
    && Separated(h.free) && FreeInside(h)
    && LiveInside(h) && LiveApart(h.live)
    && forall p: nat | h.start <= p < h.end :: InFree(h.free, p) <==> !InLive(h.live, p)
  }

  function Initial(start: nat, end: nat): Heap
    requires start <= end
  {
    Heap(start, end, [Block(start, end - start)], map[])
  }

  lemma InitialInv(start: nat, end: nat)
    requires 0 < start < end < start + BLOCK_ALLOCATED_BIT && Aligned(start) && Aligned(end)
    ensures Inv(Initial(start, end))
  {
    var h := Initial(start, end);
    forall p: nat | start <= p < end ensures InFree(h.free, p) {
      assert h.free[0].Covers(p);
    }
  }

  /** The invariant leaves the free list no choice: it is determined by what is live. */
  lemma Canonical(g: Heap, h: Heap)
    requires Inv(g) && Inv(h) && g.start == h.start && g.end == h.end && g.live == h.live
    ensures g == h
  {
    forall p: nat ensures InFree(g.free, p) <==> InFree(h.free, p) {
      if p < g.start || g.end <= p {
        assert !InFree(g.free, p) && !InFree(h.free, p);
      }
    }
    SeparatedUnique(g.free, h.free);
  }

  ghost predicate LiveOutside(live: map<nat, nat>, free: seq<Block>) {
    forall k | 0 <= k < |free| :: free[k].addr !in live
  }

  lemma LiveIsOutside(h: Heap)
    requires Inv(h)
    ensures LiveOutside(h.live, h.free)
  {
    forall k | 0 <= k < |h.free| ensures h.free[k].addr !in h.live { FreeIsNotLive(h, k); }
  }

  lemma LiveIsInside(h: Heap, a: nat)
    requires Inv(h) && a in h.live
    ensures Inside(h, Block(a, h.live[a])) && MINIMUM_BLOCK_SIZE <= h.live[a]
  {
  }

  lemma NotReleased(h: Heap, a: nat)
    requires LiveOutside(h.live, h.free)
    ensures forall k | 0 <= k < |h.free| :: h.free[k].addr !in h.live.Keys - {a}
  {
  }

  lemma FreeIsNotLive(h: Heap, k: nat)
    requires Inv(h) && k < |h.free|
    ensures h.free[k].addr !in h.live
    ensures forall a | a in h.live :: a + h.live[a] <= h.free[k].addr || h.free[k].End() <= a
  {
    var f := h.free[k];
    forall a | a in h.live ensures a + h.live[a] <= f.addr || f.End() <= a {
      var b := Block(a, h.live[a]);
      if b.Covers(f.addr) {
        assert f.Covers(f.addr);
        assert InFree(h.free, f.addr) && InLive(h.live, f.addr);
      } else if f.Covers(a) {
        assert b.Covers(a);
        assert InFree(h.free, a) && InLive(h.live, a);
      }
    }
  }

  // ---------------------------------------------------------------------------------------------
  // Allocation

  /** The request with room for a header, rounded up to the alignment. */
  function RequestSize(wanted: nat): (n: nat)
    ensures Aligned(n) && wanted + HEAP_STRUCT_SIZE <= n < wanted + HEAP_STRUCT_SIZE + BYTE_ALIGNMENT
  {
    var n := wanted + HEAP_STRUCT_SIZE;
    if n % BYTE_ALIGNMENT != 0 then n + (BYTE_ALIGNMENT - n % BYTE_ALIGNMENT) else n
  }

  function FirstFit(free: seq<Block>, n: nat): (k: nat)
    ensures k <= |free|
    ensures forall i | 0 <= i < k :: free[i].size < n
    ensures k < |free| ==> n <= free[k].size
  {
    if |free| == 0 || n <= free[0].size then 0 else 1 + FirstFit(free[1..], n)
  }

  /** The size handed out from block `b`: the whole block unless the rest is worth keeping. */
  function TakenSize(b: Block, n: nat): (taken: nat)
    requires n <= b.size
    ensures n <= taken <= b.size
  {
    if b.size - n > MINIMUM_BLOCK_SIZE then n else b.size
  }

  function Remainder(b: Block, n: nat): seq<Block>
    requires n <= b.size
  {
    if b.size - n > MINIMUM_BLOCK_SIZE then [Block(b.addr + n, b.size - n)] else []
  }

  /** The heap after at least n bytes are taken from free block k. */
  function Taken(h: Heap, k: nat, n: nat): Heap
    requires k < |h.free| && n <= h.free[k].size
  {
    var b := h.free[k];
    h.(free := Splice(h.free, k, k + 1, Remainder(b, n)), live := h.live[b.addr := TakenSize(b, n)])
  }

  function MallocSpec(h: Heap, wanted: nat): (Heap, nat) {
    var n := RequestSize(wanted);
    var k := FirstFit(h.free, n);
    if wanted == 0 || k == |h.free| then (h, NULL)
    else (Taken(h, k, n), h.free[k].addr + HEAP_STRUCT_SIZE)
  }

  lemma InLiveUpdate(live: map<nat, nat>, a: nat, size: nat, p: nat)
    requires a !in live
    ensures InLive(live[a := size], p) <==> InLive(live, p) || Block(a, size).Covers(p)
  {
    var after := live[a := size];
    if InLive(live, p) {
      var x :| x in live && Block(x, live[x]).Covers(p);
      assert Block(x, after[x]).Covers(p);
    }
    if Block(a, size).Covers(p) {
      assert Block(a, after[a]).Covers(p);
    }
    if InLive(after, p) {
      var x :| x in after && Block(x, after[x]).Covers(p);
      assert x != a ==> Block(x, live[x]).Covers(p);
    }
  }

  lemma TakenCovers(h: Heap, k: nat, n: nat, p: nat)
    requires Inv(h) && k < |h.free| && n <= h.free[k].size && h.start <= p < h.end
    ensures var g := Taken(h, k, n); InFree(g.free, p) <==> !InLive(g.live, p)
  {
    var b := h.free[k];
    FreeIsNotLive(h, k);
    InLiveUpdate(h.live, b.addr, TakenSize(b, n), p);
    SpliceCovers(h.free, k, k + 1, Remainder(b, n), p);
    OneCovers(h.free[k..k + 1], p);
    OneCovers(Remainder(b, n), p);
    if b.Covers(p) { OnlyCover(h.free, k, p); }
  }

  lemma OnlyCover(free: seq<Block>, k: nat, p: nat)
    requires Separated(free) && k < |free| && free[k].Covers(p)
    ensures !InFree(free[..k], p) && !InFree(free[k + 1..], p)
  {
  }

  lemma AlignedDifference(a: nat, b: nat)
    requires Aligned(a) && Aligned(b)
    ensures Aligned(a + b) && (b <= a ==> Aligned(a - b))
  {
  }

  lemma TakenInside(h: Heap, k: nat, n: nat)
    requires Inv(h) && k < |h.free| && MINIMUM_BLOCK_SIZE <= n <= h.free[k].size && Aligned(n)
    ensures FreeInside(Taken(h, k, n)) && LiveInside(Taken(h, k, n))
  {
    var g := Taken(h, k, n);
    var b := h.free[k];
    assert Inside(h, b);
    AlignedDifference(b.addr, n);
    AlignedDifference(b.size, n);
    assert forall x | x in h.free :: Inside(h, x);
    assert forall x | x in Remainder(b, n) :: Inside(h, x);
    assert forall i | 0 <= i < |g.free| :: g.free[i] in h.free || g.free[i] in Remainder(b, n);
  }

  lemma TakenInv(h: Heap, k: nat, n: nat)
    requires Inv(h) && k < |h.free| && MINIMUM_BLOCK_SIZE <= n <= h.free[k].size && Aligned(n)
    ensures Inv(Taken(h, k, n))
  {
    var g := Taken(h, k, n);
    FreeIsNotLive(h, k);
    SpliceSeparated(h.free, k, k + 1, Remainder(h.free[k], n));
    forall p: nat | h.start <= p < h.end ensures InFree(g.free, p) <==> !InLive(g.live, p) {
      TakenCovers(h, k, n, p);
    }
    TakenInside(h, k, n);
  }

  lemma MallocInv(h: Heap, wanted: nat)
    requires Inv(h)
    ensures Inv(MallocSpec(h, wanted).0)
  {
    var n := RequestSize(wanted);
    if MallocSpec(h, wanted).1 != NULL { TakenInv(h, FirstFit(h.free, n), n); }
  }

  lemma TakenSum(h: Heap, k: nat, n: nat)
    requires k < |h.free| && n <= h.free[k].size
    ensures SumSizes(Taken(h, k, n).free) == SumSizes(h.free) - TakenSize(h.free[k], n)
  {
    SpliceSum(h.free, k, k + 1, Remainder(h.free[k], n));
    assert h.free[k..k + 1] == [h.free[k]];
  }

  /** Allocation fails exactly when nothing is requested or no free block can hold the rounded
      request; otherwise it returns an aligned block of bytes that were all free, from the lowest
      free block that is large enough. */
  lemma MallocMeaning(h: Heap, wanted: nat)
    requires Inv(h)
    ensures MallocSpec(h, wanted).1 == 0 <==>
              wanted == 0 || forall k | 0 <= k < |h.free| :: h.free[k].size < RequestSize(wanted)
    ensures MallocSpec(h, wanted).1 == 0 ==> MallocSpec(h, wanted).0 == h
    ensures var (g, pv) := MallocSpec(h, wanted);
            pv != 0 ==>
              && Aligned(pv)
              && pv - HEAP_STRUCT_SIZE in g.live && pv - HEAP_STRUCT_SIZE !in h.live
              && pv + wanted <= pv - HEAP_STRUCT_SIZE + g.live[pv - HEAP_STRUCT_SIZE]
              && (forall p: nat | pv - HEAP_STRUCT_SIZE <= p < pv + wanted :: InFree(h.free, p))
              && (forall k | 0 <= k < |h.free| && RequestSize(wanted) <= h.free[k].size ::
                  pv - HEAP_STRUCT_SIZE <= h.free[k].addr)
  {
    var n := RequestSize(wanted);
    var k := FirstFit(h.free, n);
    if wanted > 0 && k < |h.free| {
      FirstIsLowest(h, n);
      assert Inside(h, h.free[k]);
      FreeIsNotLive(h, k);
      hide Inv, Separated, FirstFit;
      forall p: nat | h.free[k].addr <= p < h.free[k].addr + n ensures InFree(h.free, p) {
        assert h.free[k].Covers(p);
      }
    }
  }

  lemma FirstIsLowest(h: Heap, n: nat)
    requires Separated(h.free) && FirstFit(h.free, n) < |h.free|
    ensures forall j | 0 <= j < |h.free| && n <= h.free[j].size :: h.free[FirstFit(h.free, n)].addr <= h.free[j].addr
  {
  }

  /** How much is handed out, in bytes: from the first free block that fits, the request with its header of
      8 bytes rounded up to a multiple of 8 if more than 16 bytes are left over, which stay free, and
      otherwise the whole block. Nothing else changes. */
  lemma HandedOut(h: Heap, wanted: nat)
    requires Inv(h) && MallocSpec(h, wanted).1 != 0
    ensures var (g, pv) := MallocSpec(h, wanted);
            var n := RequestSize(wanted);
            var f := h.free[FirstFit(h.free, n)];
            var taken := if f.size > n + 16 then n else f.size;
            && n % 8 == 0 && wanted + 8 <= n < wanted + 16
            && pv == f.addr + 8 && g.live == h.live[f.addr := taken]
            && (forall p: nat :: InFree(g.free, p) <==> InFree(h.free, p) && !(f.addr <= p < f.addr + taken))
            && (forall p: nat | f.addr + taken <= p < f.End() :: InFree(g.free, p))
            && SumSizes(g.free) + taken == SumSizes(h.free)
  {
    var n := RequestSize(wanted);
    var k := FirstFit(h.free, n);
    var f := h.free[k];
    TakenSum(h, k, n);
    forall p: nat
      ensures InFree(Taken(h, k, n).free, p) <==> InFree(h.free, p) && !(f.addr <= p < f.addr + TakenSize(f, n))
    {
      FreeAfterTaking(h.free, k, n, p);
    }
    forall p: nat | f.addr + TakenSize(f, n) <= p < f.End() ensures InFree(h.free, p) {
      assert f.Covers(p);
    }
  }

  lemma FreeAfterTaking(free: seq<Block>, k: nat, n: nat, p: nat)
    requires Separated(free) && k < |free| && n <= free[k].size
    ensures var b := free[k];
            InFree(Splice(free, k, k + 1, Remainder(b, n)), p) <==>
              InFree(free, p) && !(b.addr <= p < b.addr + TakenSize(b, n))
  {
    var b := free[k];
    SpliceCovers(free, k, k + 1, Remainder(b, n), p);
    OneCovers(free[k..k + 1], p);
    OneCovers(Remainder(b, n), p);
    if b.Covers(p) { OnlyCover(free, k, p); }
  }

  lemma {:induction false} SumIsEnough(free: seq<Block>, n: nat)
    ensures FirstFit(free, n) < |free| ==> n <= SumSizes(free)
  {
    if |free| > 0 { SumIsEnough(free[1..], n); }
  }

  /** What splitting puts back: the remainder goes where its block was and touches no neighbour. */
  lemma RemainderInserted(f: seq<Block>, k: nat, rest: Block)
    requires Separated(f) && k < |f| && f[k].addr < rest.addr && 0 < rest.size && rest.End() == f[k].End()
    ensures Disjoint(Splice(f, k, k + 1, []), rest)
    ensures Insert(Splice(f, k, k + 1, []), rest) == Splice(f, k, k + 1, [rest])
  {
    RemainderPlace(f, k, rest);
    RemainderApart(f, k, rest);
    SpliceTwice(f, k, rest);
  }

  lemma SpliceTwice(f: seq<Block>, k: nat, b: Block)
    requires k < |f|
    ensures Splice(Splice(f, k, k + 1, []), k, k, [b]) == Splice(f, k, k + 1, [b])
  {
  }

  lemma RemainderPlace(f: seq<Block>, k: nat, rest: Block)
    requires Separated(f) && k < |f| && f[k].addr < rest.addr < f[k].End()
    ensures Position(Splice(f, k, k + 1, []), rest.addr) == k
  {
    var r := Splice(f, k, k + 1, []);
    var p := Position(r, rest.addr);
    assert forall j | 0 <= j < k :: r[j].addr < rest.addr by { assert forall j | 0 <= j < k :: f[j].End() < f[k].addr; }
    assert k < |r| ==> r[k] == f[k + 1];
  }

  lemma RemainderApart(f: seq<Block>, k: nat, rest: Block)
    requires Separated(f) && k < |f| && f[k].addr < rest.addr && 0 < rest.size && rest.End() == f[k].End()
    ensures var r := Splice(f, k, k + 1, []);
            Disjoint(r, rest) && !TouchesFront(r, k, rest) && !TouchesBehind(r, k, rest)
  {
    var r := Splice(f, k, k + 1, []);
    assert forall j | 0 <= j < k :: r[j] == f[j] && f[j].End() < f[k].addr;
    assert forall j | k <= j < |r| :: r[j] == f[j + 1] && f[k].End() < f[j + 1].addr;
  }

  lemma UnlinkedElsewhere(f: seq<Block>, k: nat)
    requires Separated(f) && k < |f|
    ensures var r := Splice(f, k, k + 1, []);
            forall j | 0 <= j < |r| :: r[j] in f && (r[j].addr < f[k].addr || f[k].End() <= r[j].addr)
  {
  }

  lemma TakenElsewhere(f: seq<Block>, k: nat, n: nat)
    requires Separated(f) && k < |f| && 0 < n <= f[k].size
    ensures var r := Splice(f, k, k + 1, Remainder(f[k], n));
            forall j | 0 <= j < |r| :: r[j].addr != f[k].addr
  {
  }

  lemma TooBig(h: Heap, wanted: nat)
    requires Inv(h)
    ensures BLOCK_ALLOCATED_BIT <= wanted ==> FirstFit(h.free, RequestSize(wanted)) == |h.free|
  {
  }

  // ---------------------------------------------------------------------------------------------
  // Release

  function FreeSpec(h: Heap, pv: nat): Heap {
    var a := pv - HEAP_STRUCT_SIZE;
    if a >= 0 && a in h.live
    then h.(free := Insert(h.free, Block(a, h.live[a])), live := map x | x in h.live && x != a :: h.live[x])
    else h
  }

  lemma LiveIsDisjoint(h: Heap, a: nat)
    requires Inv(h) && a in h.live
    ensures Disjoint(h.free, Block(a, h.live[a]))
  {
    forall k | 0 <= k < |h.free| ensures h.free[k].End() <= a || a + h.live[a] <= h.free[k].addr {
      FreeIsNotLive(h, k);
    }
  }

  lemma FreeCovers(h: Heap, pv: nat, p: nat)
    requires Inv(h) && h.start <= p < h.end
    ensures var g := FreeSpec(h, pv); InFree(g.free, p) <==> !InLive(g.live, p)
  {
    hide InFree, Insert, LiveInside, FreeInside, Separated;
    var a := pv - HEAP_STRUCT_SIZE;
    if a >= 0 && a in h.live {
      var g := FreeSpec(h, pv);
      InsertCovers(h.free, Block(a, h.live[a]), p);
      InLiveUpdate(g.live, a, h.live[a], p);
      assert g.live[a := h.live[a]] == h.live;
    }
  }

  lemma InsertInside(h: Heap, b: Block)
    requires FreeInside(h) && Inside(h, b)
    ensures FreeInside(h.(free := Insert(h.free, b)))
  {
    var i := Position(h.free, b.addr);
    var m := Merged(h.free, i, b);
    AlignedDifference(b.addr, b.size);
    if i > 0 { AlignedDifference(h.free[i - 1].addr, h.free[i - 1].size); }
    if i < |h.free| { AlignedDifference(h.free[i].addr, h.free[i].size); }
    AlignedDifference(m.End(), m.addr);
    assert Inside(h, m);
    var g := h.(free := Insert(h.free, b));
    assert forall x | 0 <= x < |g.free| :: g.free[x] in h.free || g.free[x] == m;
    assert forall x | x in h.free :: Inside(h, x);
  }

  lemma FreeInside'(h: Heap, pv: nat)
    requires Inv(h)
    ensures FreeInside(FreeSpec(h, pv)) && LiveInside(FreeSpec(h, pv)) && LiveApart(FreeSpec(h, pv).live)
  {
    var a := pv - HEAP_STRUCT_SIZE;
    if a >= 0 && a in h.live {
      InsertInside(h, Block(a, h.live[a]));
      hide Insert, Separated, InFree, InLive;
      assert FreeInside(FreeSpec(h, pv));
    }
  }

  lemma FreeInv(h: Heap, pv: nat)
    requires Inv(h)
    ensures Inv(FreeSpec(h, pv))
  {
    var a := pv - HEAP_STRUCT_SIZE;
    if a >= 0 && a in h.live {
      var g := FreeSpec(h, pv);
      LiveIsDisjoint(h, a);
      InsertSeparated(h.free, Block(a, h.live[a]));
      FreeInside'(h, pv);
      forall p: nat | h.start <= p < h.end ensures InFree(g.free, p) <==> !InLive(g.live, p) {
        FreeCovers(h, pv, p);
      }
      hide Insert, Separated, FreeInside, LiveInside, LiveApart, InFree, InLive;
    }
  }

  // ---------------------------------------------------------------------------------------------
  // Whole runs

  datatype Op = Allocate(wanted: nat) | Release(pv: nat)

  function Step(h: Heap, op: Op): Heap {
    match op
    case Allocate(wanted) => MallocSpec(h, wanted).0
    case Release(pv) => FreeSpec(h, pv)
  }

  function Run(h: Heap, ops: seq<Op>): Heap
    decreases |ops|
  {
    if |ops| == 0 then h else Run(Step(h, ops[0]), ops[1..])
  }

  /** A run takes each of its steps, one after the other, and nothing else. */
  lemma {:induction false} RunAppends(h: Heap, ops: seq<Op>, op: Op)
    ensures Run(h, []) == h
    ensures Run(h, ops + [op]) == Step(Run(h, ops), op)
    decreases |ops|
  {
    hide Step;
    if |ops| == 0 {
      assert ops + [op] == [op] && Run(Step(h, op), [op][1..]) == Step(h, op);
    } else {
      assert (ops + [op])[0] == ops[0] && (ops + [op])[1..] == ops[1..] + [op];
      RunAppends(Step(h, ops[0]), ops[1..], op);
    }
  }

  lemma {:induction false} RunInv(h: Heap, ops: seq<Op>)
    requires Inv(h)
    ensures Inv(Run(h, ops)) && Run(h, ops).start == h.start && Run(h, ops).end == h.end
    decreases |ops|
  {
    if |ops| > 0 {
      match ops[0] {
        case Allocate(wanted) => MallocInv(h, wanted);
        case Release(pv) => FreeInv(h, pv);
      }
      RunInv(Step(h, ops[0]), ops[1..]);
    }
  }

  /** The heap remembers nothing but what is live: however two runs got there, if the same blocks
      are live then the free lists are identical. */
  lemma HistoryIndependent(h: Heap, ops: seq<Op>, ops': seq<Op>)
    requires Inv(h) && Run(h, ops).live == Run(h, ops').live
    ensures Run(h, ops) == Run(h, ops')
  {
    RunInv(h, ops);
    RunInv(h, ops');
    Canonical(Run(h, ops), Run(h, ops'));
  }

  /** Releasing a block straight after it was allocated restores the heap, split or not. */
  lemma MallocThenFree(h: Heap, wanted: nat)
    requires Inv(h) && MallocSpec(h, wanted).1 != NULL
    ensures FreeSpec(MallocSpec(h, wanted).0, MallocSpec(h, wanted).1) == h
  {
    hide Inv, InFree, FirstFit, Insert, Aligned;
    var (g, pv) := MallocSpec(h, wanted);
    MallocMeaning(h, wanted);
    MallocInv(h, wanted);
    FreeInv(g, pv);
    assert FreeSpec(g, pv).live == h.live;
    Canonical(FreeSpec(g, pv), h);
  }

  function Releases(ptrs: seq<nat>): seq<Op> {
    seq(|ptrs|, i requires 0 <= i < |ptrs| => Release(ptrs[i]))
  }

  lemma {:induction false} ReleasesLive(h: Heap, ptrs: seq<nat>)
    ensures Run(h, Releases(ptrs)).live == map a | a in h.live && a + HEAP_STRUCT_SIZE !in ptrs :: h.live[a]
    decreases |ptrs|
  {
    if |ptrs| > 0 {
      assert Releases(ptrs)[1..] == Releases(ptrs[1..]);
      ReleasesLive(FreeSpec(h, ptrs[0]), ptrs[1..]);
      assert forall p :: p in ptrs <==> p == ptrs[0] || p in ptrs[1..];
    }
  }

  /** Releasing everything that is live, in any order, gives back the initial single block. */
  lemma FreeAll(h: Heap, ptrs: seq<nat>)
    requires Inv(h)
    requires forall a | a in h.live :: a + HEAP_STRUCT_SIZE in ptrs
    ensures Run(h, Releases(ptrs)) == Initial(h.start, h.end)
  {
    ReleasesLive(h, ptrs);
    RunInv(h, Releases(ptrs));
    InitialInv(h.start, h.end);
    Canonical(Run(h, Releases(ptrs)), Initial(h.start, h.end));
  }

  // ---------------------------------------------------------------------------------------------
  // The code

  datatype BlockLink = BlockLink(next: nat, size: nat)

  /** Address of the first aligned byte of ucHeap, and of the end marker placed in its last cell. */
  function AlignedStart(ucHeap: nat): (a: nat)
    ensures Aligned(a) && ucHeap <= a < ucHeap + BYTE_ALIGNMENT
  {
    if ucHeap % BYTE_ALIGNMENT != 0
    then ucHeap + (BYTE_ALIGNMENT - 1) - (ucHeap + (BYTE_ALIGNMENT - 1)) % BYTE_ALIGNMENT
    else ucHeap
  }

  function EndMarker(ucHeap: nat, total: nat): (e: int)
    ensures e % BYTE_ALIGNMENT == 0
    ensures e + HEAP_STRUCT_SIZE <= ucHeap + total < e + HEAP_STRUCT_SIZE + BYTE_ALIGNMENT
  {
    var start := AlignedStart(ucHeap);
    var usable := total - (start - ucHeap);
    var address := start + usable - HEAP_STRUCT_SIZE;
    address - address % BYTE_ALIGNMENT
  }

  function Min(a: nat, b: nat): nat { if a < b then a else b }

  ghost predicate Least(m: nat, past: seq<Heap>) {
    && (forall i | 0 <= i < |past| :: m <= SumSizes(past[i].free))
    && (exists i | 0 <= i < |past| :: SumSizes(past[i].free) == m)
  }

  lemma LeastSnoc(m: nat, past: seq<Heap>, h: Heap)
    requires Least(m, past)
    ensures Least(Min(m, SumSizes(h.free)), past + [h])
  {
    var i :| 0 <= i < |past| && SumSizes(past[i].free) == m;
    assert (past + [h])[i] == past[i] && (past + [h])[|past|] == h;
  }

  lemma LeastSame(past: seq<Heap>, h: Heap)
    requires past != [] && forall g <- past :: g == h
    ensures Least(SumSizes(h.free), past)
  {
    assert past[0] in past;
    assert forall i | 0 <= i < |past| :: past[i] in past;
  }

  lemma LeastIsLess(m: nat, past: seq<Heap>)
    requires Least(m, past) && past != []
    ensures m <= SumSizes(past[|past| - 1].free)
  {
  }

  // The two tests that vPortFree makes on a header.
  predicate LooksAllocated(header: BlockLink) {
    header.size >= BLOCK_ALLOCATED_BIT && header.next == NULL
  }

  class Allocator {
    const ucHeap: nat         // address of the memory
    const total: nat          // configTOTAL_HEAP_SIZE
    const xStartAddr: nat     // address of xStart, which lies outside ucHeap
    const start: nat
    const end: nat
    // mem[i] is the header that starts i bytes after `start`.  Only aligned addresses are ever used
    // and a header is as wide as the alignment, so no two headers overlap.
    const mem: array<BlockLink>
    var xStartNext: nat
    var pxEnd: nat
    var freeBytes: nat
    var minimumEverFreeBytes: nat
    ghost var heap: Heap
    ghost var past: seq<Heap>  // the heap at the start and after each call, up to now

    ghost predicate Geometry() {
      && 0 < ucHeap && 32 <= total < BLOCK_ALLOCATED_BIT
      && start == AlignedStart(ucHeap) && end == EndMarker(ucHeap, total)
      && mem.Length == end - start + HEAP_STRUCT_SIZE
      && (xStartAddr < ucHeap || ucHeap + total <= xStartAddr)
    }

    predicate IsCell(a: nat) { Aligned(a) && start <= a <= end }

    function At(a: nat): BlockLink
      reads mem
      requires Geometry() && IsCell(a)
    {
      mem[a - start]
    }

    // pxNextFreeBlock and xBlockSize of the header at `a`, or of xStart, whose size is always 0.
    function Next(a: nat): nat
      reads `xStartNext, mem
      requires Geometry() && (a == xStartAddr || IsCell(a))
    {
      if a == xStartAddr then xStartNext else At(a).next
    }

    function Size(a: nat): nat
      reads mem
      requires Geometry() && (a == xStartAddr || IsCell(a))
    {
      if a == xStartAddr then 0 else At(a).size
    }

    ghost function AddressOf(f: seq<Block>, k: nat): nat {
      if k < |f| then f[k].addr else end
    }

    ghost function PointerBefore(f: seq<Block>, k: nat): nat
      requires k <= |f|
    {
      if k == 0 then xStartAddr else f[k - 1].addr
    }

    ghost predicate BlocksInside(f: seq<Block>) {
      forall k | 0 <= k < |f| :: Aligned(f[k].addr) && start <= f[k].addr && f[k].End() <= end
    }

    /** The linked list threaded through the memory is exactly `f`, closed by the end marker. */
    ghost predicate ListAt(f: seq<Block>)
      reads `xStartNext, mem
      requires Geometry()
    {
      && BlocksInside(f) && Separated(f)
      && xStartNext == AddressOf(f, 0)
      && (forall k {:trigger At(f[k].addr)} | 0 <= k < |f| ::
          At(f[k].addr) == BlockLink(AddressOf(f, k + 1), f[k].size))
      && At(end) == BlockLink(NULL, 0)
    }

    ghost predicate LiveAt(live: map<nat, nat>)
      reads mem
      requires Geometry()
    {
      forall a | a in live :: IsCell(a) && a < end && At(a) == BlockLink(NULL, live[a] + BLOCK_ALLOCATED_BIT)
    }

    ghost predicate Valid()
      reads `xStartNext, `pxEnd, `freeBytes, `minimumEverFreeBytes, `heap, mem
    {
      && Geometry()
      && Inv(heap) && heap.start == start && heap.end == end
      && (pxEnd == NULL ==> heap == Initial(start, end))
      && (pxEnd != NULL ==>
            && pxEnd == end && ListAt(heap.free) && LiveAt(heap.live)
            && freeBytes == SumSizes(heap.free) && minimumEverFreeBytes <= freeBytes)
    }

    /** xMinimumEverFreeBytesRemaining is the least that has ever been free, once the heap is in use. */
    ghost predicate Tracked()
      reads this
    {
      && past != [] && heap == past[|past| - 1]
      && (if pxEnd == NULL then forall h <- past :: h == heap else Least(minimumEverFreeBytes, past))
    }

    constructor (ucHeap: nat, total: nat, xStartAddr: nat)
      requires 0 < ucHeap && 32 <= total < BLOCK_ALLOCATED_BIT
      requires xStartAddr < ucHeap || ucHeap + total <= xStartAddr
      ensures Valid() && Tracked() && fresh(mem)
      ensures heap == Initial(AlignedStart(ucHeap), EndMarker(ucHeap, total))
      ensures heap.start % 8 == 0 && ucHeap <= heap.start < ucHeap + 8
      ensures heap.end % 8 == 0 && heap.end + 8 <= ucHeap + total < heap.end + 16
      ensures heap.free == [Block(heap.start, heap.end - heap.start)] && heap.live == map[]
    {
      this.ucHeap, this.total, this.xStartAddr := ucHeap, total, xStartAddr;
      var s, e := AlignedStart(ucHeap), EndMarker(ucHeap, total);
      start, end := s, e;
      mem := new BlockLink[e - s + HEAP_STRUCT_SIZE](_ => BlockLink(0, 0));
      xStartNext, pxEnd, freeBytes, minimumEverFreeBytes := NULL, NULL, 0, 0;
      heap, past := Initial(s, e), [Initial(s, e)];
      InitialInv(s, e);
    }

    method HeapInit()
      requires Valid() && pxEnd == NULL
      modifies this`xStartNext, this`pxEnd, this`freeBytes, this`minimumEverFreeBytes, mem
      ensures Valid() && pxEnd == end && minimumEverFreeBytes == SumSizes(heap.free)
    {
      xStartNext := start;
      pxEnd := end;
      mem[end - start] := BlockLink(NULL, 0);
      mem[0] := BlockLink(end, end - start);
      minimumEverFreeBytes := At(start).size;
      freeBytes := At(start).size;
      assert heap.free == [Block(start, end - start)];
      assert SumSizes(heap.free) == end - start;
    }

    method SetNext(a: nat, next: nat)
      requires Geometry() && (a == xStartAddr || IsCell(a))
      modifies this`xStartNext, mem
      ensures a == xStartAddr ==> xStartNext == next && mem[..] == old(mem[..])
      ensures a != xStartAddr ==> xStartNext == old(xStartNext) && At(a) == old(At(a)).(next := next)
      ensures forall c | IsCell(c) && c != a :: At(c) == old(At(c))
    {
      if a == xStartAddr {
        xStartNext := next;
      } else {
        mem[a - start] := mem[a - start].(next := next);
      }
    }

    method SetSize(a: nat, size: nat)
      requires Geometry() && IsCell(a)
      modifies mem
      ensures At(a) == old(At(a)).(size := size)
      ensures forall c | IsCell(c) && c != a :: At(c) == old(At(c))
    {
      mem[a - start] := mem[a - start].(size := size);
    }

    lemma SpliceAddresses(f: seq<Block>, lo: nat, hi: nat, mid: seq<Block>)
      requires lo <= hi <= |f| && |mid| <= 1
      ensures var r := Splice(f, lo, hi, mid);
              && |r| == lo + |mid| + |f| - hi
              && (forall k | 0 <= k < lo :: r[k] == f[k])
              && (mid != [] ==> r[lo] == mid[0])
              && (forall k | lo + |mid| <= k < |r| :: r[k] == f[k - (lo + |mid|) + hi])
              && (forall k | 0 <= k < lo :: AddressOf(r, k) == f[k].addr)
              && (mid != [] ==> AddressOf(r, lo) == mid[0].addr)
              && (forall k | lo + |mid| <= k <= |r| :: AddressOf(r, k) == AddressOf(f, k - (lo + |mid|) + hi))
    {
    }

    /** The memory holds `f` apart from the blocks lo..hi, and `mid` is linked in their place. */
    ghost predicate Spliced(f: seq<Block>, lo: nat, hi: nat, mid: seq<Block>)
      reads this, mem
      requires Geometry() && lo <= hi <= |f| && |mid| <= 1 && BlocksInside(f) && BlocksInside(mid)
    {
      && Next(PointerBefore(f, lo)) == (if mid == [] then AddressOf(f, hi) else mid[0].addr)
      && (lo > 0 ==> xStartNext == f[0].addr && Size(f[lo - 1].addr) == f[lo - 1].size)
      && (mid != [] ==> At(mid[0].addr) == BlockLink(AddressOf(f, hi), mid[0].size))
      && (forall k {:trigger At(f[k].addr)} | 0 <= k < lo - 1 || hi <= k < |f| ::
          At(f[k].addr) == BlockLink(AddressOf(f, k + 1), f[k].size))
    }

    lemma SplicedEntry(f: seq<Block>, lo: nat, hi: nat, mid: seq<Block>, k: nat)
      requires Geometry() && lo <= hi <= |f| && |mid| <= 1 && BlocksInside(f) && BlocksInside(mid)
      requires Spliced(f, lo, hi, mid) && k < |Splice(f, lo, hi, mid)|
      ensures var r := Splice(f, lo, hi, mid);
              && Aligned(r[k].addr) && start <= r[k].addr && r[k].End() <= end
              && At(r[k].addr) == BlockLink(AddressOf(r, k + 1), r[k].size)
    {
      hide Splice;
      SpliceAddresses(f, lo, hi, mid);
      if k < lo {
        assert At(f[k].addr).size == f[k].size;
      } else if k >= lo + |mid| {
        var j := k - (lo + |mid|) + hi;
        assert At(f[j].addr) == BlockLink(AddressOf(f, j + 1), f[j].size);
      }
    }

    /** Relinking around the blocks lo..hi is enough to have the spliced list in memory. */
    lemma SpliceListed(f: seq<Block>, lo: nat, hi: nat, mid: seq<Block>)
      requires Geometry() && lo <= hi <= |f| && |mid| <= 1
      requires BlocksInside(f) && BlocksInside(mid) && Separated(Splice(f, lo, hi, mid))
      requires Spliced(f, lo, hi, mid) && At(end) == BlockLink(NULL, 0)
      ensures ListAt(Splice(f, lo, hi, mid))
    {
      hide Splice, Separated, Spliced, BlocksInside;
      var r := Splice(f, lo, hi, mid);
      SplicedFirst(f, lo, hi, mid);
      forall k: nat | k < |r|
        ensures Aligned(r[k].addr) && start <= r[k].addr && r[k].End() <= end
        ensures At(r[k].addr) == BlockLink(AddressOf(r, k + 1), r[k].size)
      {
        SplicedEntry(f, lo, hi, mid, k);
      }
      InsideIs(r);
    }

    lemma SplicedFirst(f: seq<Block>, lo: nat, hi: nat, mid: seq<Block>)
      requires Geometry() && lo <= hi <= |f| && |mid| <= 1 && BlocksInside(f) && BlocksInside(mid)
      requires Spliced(f, lo, hi, mid)
      ensures xStartNext == AddressOf(Splice(f, lo, hi, mid), 0)
    {
      hide Splice;
      SpliceAddresses(f, lo, hi, mid);
    }

    lemma InsideIs(f: seq<Block>)
      requires forall k: nat | k < |f| :: Aligned(f[k].addr) && start <= f[k].addr && f[k].End() <= end
      ensures BlocksInside(f)
    {
    }

    /** Finds the place of `block` in the list: the last header in front of it. */
    method FindPlace(block: nat, ghost f: seq<Block>) returns (before: nat)
      requires Geometry() && ListAt(f) && block < end
      ensures before == PointerBefore(f, Position(f, block))
    {
      ghost var i := 0;
      before := xStartAddr;
      while Next(before) < block
        invariant i <= |f| && before == PointerBefore(f, i)
        invariant forall k | 0 <= k < i :: f[k].addr < block
        decreases |f| - i
      {
        before := Next(before);
        i := i + 1;
      }
    }

    ghost predicate PlaceOf(f: seq<Block>, b: Block, i: nat) {
      && i <= |f| && Disjoint(f, b) && Aligned(b.addr) && start <= b.addr && b.End() <= end
      && (forall k | 0 <= k < i :: f[k].addr < b.addr)
      && (forall k | i <= k < |f| :: b.addr < f[k].addr)
    }

    lemma OthersUntouched(f: seq<Block>, b: Block, i: nat)
      requires Geometry() && BlocksInside(f) && Separated(f) && PlaceOf(f, b, i)
      ensures forall k | 0 <= k < |f| && k + 1 != i ::
                f[k].addr != PointerBefore(f, i) && f[k].addr != b.addr && f[k].addr != Merged(f, i, b).addr
    {
      forall k | 0 <= k < |f| && k + 1 != i
        ensures f[k].addr != PointerBefore(f, i) && f[k].addr != b.addr
      {
        assert i > 0 && k < i - 1 ==> f[k].End() < f[i - 1].addr;
        assert i > 0 && i <= k ==> f[i - 1].End() < f[k].addr;
      }
    }

    /** What prvInsertBlockIntoFreeList leaves behind: one merged header, linked in between its
        neighbours, and no other header changed. */
    ghost predicate Relinked(f: seq<Block>, b: Block, i: nat)
      reads this, mem
      requires Geometry() && BlocksInside(f) && PlaceOf(f, b, i)
    {
      var lo := if TouchesFront(f, i, b) then i - 1 else i;
      var hi := if TouchesBehind(f, i, b) then i + 1 else i;
      var m := Merged(f, i, b);
      && At(m.addr) == BlockLink(AddressOf(f, hi), m.size)
      && Next(PointerBefore(f, lo)) == m.addr
      && (lo > 0 ==> xStartNext == f[0].addr && Size(f[lo - 1].addr) == f[lo - 1].size)
      && (forall k {:trigger At(f[k].addr)} | 0 <= k < |f| && k + 1 != i ::
            At(f[k].addr) == BlockLink(AddressOf(f, k + 1), f[k].size))
      && At(end) == BlockLink(NULL, 0)
    }

    lemma RelinkedListed(f: seq<Block>, b: Block)
      requires Geometry() && BlocksInside(f) && Separated(f) && PlaceOf(f, b, Position(f, b.addr))
      requires Relinked(f, b, Position(f, b.addr))
      ensures ListAt(Insert(f, b))
    {
      hide Splice, Separated, Position;
      var i := Position(f, b.addr);
      var lo := if TouchesFront(f, i, b) then i - 1 else i;
      var hi := if TouchesBehind(f, i, b) then i + 1 else i;
      var m := Merged(f, i, b);
      InsertSeparated(f, b);
      assert BlocksInside([m]);
      SpliceListed(f, lo, hi, [m]);
    }

    /** The list `f`, except that the block in front of b has already grown over it. */
    ghost predicate GrownListAt(f: seq<Block>, b: Block, i: nat)
      reads this, mem
      requires Geometry() && i <= |f|
    {
      && BlocksInside(f) && Separated(f)
      && xStartNext == AddressOf(f, 0)
      && (forall k {:trigger At(f[k].addr)} | 0 <= k < |f| ::
            At(f[k].addr) == BlockLink(AddressOf(f, k + 1), f[k].size + if k + 1 == i &&
                TouchesFront(f, i, b) then b.size else 0))
      && At(end) == BlockLink(NULL, 0)
    }

    /** Grows the block in front over `block` when the two touch. */
    method JoinFront(before: nat, block: nat, ghost f: seq<Block>, ghost b: Block, ghost i: nat) returns (toInsert: nat)
      requires Geometry() && ListAt(f) && PlaceOf(f, b, i)
      requires IsCell(block) && b == Block(block, At(block).size) && before == PointerBefore(f, i)
      modifies mem
      ensures GrownListAt(f, b, i)
      ensures toInsert == Merged(f, i, b).addr && At(toInsert).size == b.End() - toInsert
      ensures forall c | IsCell(c) && c != before :: At(c) == old(At(c))
    {
      hide Separated;
      OthersUntouched(f, b, i);
      toInsert := block;
      if before + Size(before) == toInsert {
        SetSize(before, Size(before) + Size(toInsert));
        toInsert := before;
      }
    }

    /** Joins `toInsert`, which ends where the released block ends, to what follows it. */
    method AttachBehind(before: nat, toInsert: nat, ghost f: seq<Block>, ghost b: Block, ghost i: nat)
      requires Geometry() && pxEnd == end && PlaceOf(f, b, i) && GrownListAt(f, b, i)
      requires IsCell(toInsert) && toInsert < end && At(toInsert).size == b.End() - toInsert
      requires before == PointerBefore(f, i)
      modifies this`xStartNext, mem
      ensures xStartNext == old(xStartNext)
      ensures At(toInsert) == if TouchesBehind(f, i, b)
                              then BlockLink(AddressOf(f, i + 1), f[i].End() - toInsert)
                              else BlockLink(AddressOf(f, i), b.End() - toInsert)
      ensures forall c | IsCell(c) && c != toInsert :: At(c) == old(At(c))
    {
      hide Separated;
      assert Next(before) == AddressOf(f, i);
      if toInsert + Size(toInsert) == Next(before) {
        if Next(before) != pxEnd {
          SetSize(toInsert, Size(toInsert) + Size(Next(before)));
          SetNext(toInsert, Next(Next(before)));
        } else {
          SetNext(toInsert, pxEnd);
        }
      } else {
        SetNext(toInsert, Next(before));
      }
    }

    /** The second half of prvInsertBlockIntoFreeList: `toInsert` is either the released block or
        the block in front of it, already grown over it. */
    method Relink(before: nat, toInsert: nat, ghost f: seq<Block>, ghost b: Block, ghost i: nat)
      requires Geometry() && pxEnd == end && PlaceOf(f, b, i) && GrownListAt(f, b, i)
      requires before == PointerBefore(f, i) && toInsert == Merged(f, i, b).addr
      requires At(toInsert).size == b.End() - toInsert
      modifies this`xStartNext, mem
      ensures Relinked(f, b, i)
      ensures forall c | IsCell(c) && c != toInsert && c != before :: At(c) == old(At(c))
    {
      hide Separated;
      OthersUntouched(f, b, i);
      AttachBehind(before, toInsert, f, b, i);
      assert before == toInsert <==> TouchesFront(f, i, b);
      if before != toInsert {
        SetNext(before, toInsert);
      }
      assert At(toInsert).size == Merged(f, i, b).size;
    }

    method InsertBlockIntoFreeList(block: nat, ghost f: seq<Block>, ghost keep: set<nat>)
      requires Geometry() && pxEnd == end && ListAt(f)
      requires IsCell(block) && block + At(block).size <= end
      requires Disjoint(f, Block(block, At(block).size))
      requires block !in keep && (forall a | a in keep :: IsCell(a)) && forall k | 0 <= k < |f| :: f[k].addr !in keep
      modifies this`xStartNext, mem
      ensures ListAt(Insert(f, Block(block, old(At(block).size))))
      ensures forall a | a in keep :: At(a) == old(At(a))
      ensures At(block).size < BLOCK_ALLOCATED_BIT
    {
      hide Separated, Splice, Position;
      ghost var b := Block(block, At(block).size);
      ghost var i := Position(f, block);
      InsertFits(f, b);
      var before := FindPlace(block, f);
      assert before == xStartAddr || before !in keep;
      var toInsert := JoinFront(before, block, f, b, i);
      assert At(block).size == b.size < BLOCK_ALLOCATED_BIT;
      Relink(before, toInsert, f, b, i);
      assert At(block).size == if toInsert == block then Merged(f, i, b).size else b.size;
      RelinkedListed(f, b);
    }

    /** The list walk of pvPortMalloc: the first free block of at least `n` bytes, or the end. */
    method FindBlock(n: nat) returns (previous: nat, block: nat)
      requires Valid() && pxEnd == end && 0 < n
      ensures var k := FirstFit(heap.free, n);
                previous == PointerBefore(heap.free, k) && block == AddressOf(heap.free, k)
      ensures block == end <==> FirstFit(heap.free, n) == |heap.free|
    {
      hide Inv, Separated, SumSizes, LiveAt;
      ghost var k := 0;
      previous, block := xStartAddr, xStartNext;
      while Size(block) < n && Next(block) != NULL
        invariant k <= |heap.free| && previous == PointerBefore(heap.free, k) && block == AddressOf(heap.free, k)
        invariant forall j | 0 <= j < k :: heap.free[j].size < n
        decreases |heap.free| - k
      {
        previous, block := block, Next(block);
        k := k + 1;
      }
    }

    /** Why the two tests in front of the list walk refuse nothing that would have fitted. */
    lemma RequestChecks(wanted: nat)
      requires Valid()
      ensures Inv(heap) && end != NULL && (pxEnd == NULL || pxEnd == end)
      ensures pxEnd == end && FirstFit(heap.free, RequestSize(wanted)) < |heap.free| ==>
                wanted < BLOCK_ALLOCATED_BIT && RequestSize(wanted) <= freeBytes
    {
      SumIsEnough(heap.free, RequestSize(wanted));
      TooBig(heap, wanted);
    }

    method Malloc(wanted: nat) returns (pv: nat)
      requires Valid() && Tracked()
      modifies this`xStartNext, this`pxEnd, this`freeBytes, this`minimumEverFreeBytes, this`heap, this`past, mem
      ensures Valid() && Tracked() && past == old(past) + [heap]
      ensures (heap, pv) == MallocSpec(old(heap), wanted)
      ensures pxEnd == end != 0 && freeBytes + (if pv == 0 then 0 else heap.live[pv - 8]) == SumSizes(old(heap.free))
      ensures pv != 0 ==> At(pv - 8) == BlockLink(0, 0x8000_0000 + heap.live[pv - 8])
    {
      hide Valid, Inv, FirstFit, Taken, SumSizes, Least;
      ghost var was := heap;
      RequestChecks(wanted);
      if pxEnd == NULL {
        HeapInit();
        LeastSame(past, heap);
      }
      ghost var least := minimumEverFreeBytes;
      LeastIsLess(least, past);
      pv := NULL;
      RequestChecks(wanted);
      if wanted < BLOCK_ALLOCATED_BIT {
        var size := wanted;
        if size > 0 {
          size := size + HEAP_STRUCT_SIZE;
          if size % BYTE_ALIGNMENT != 0 {
            size := size + (BYTE_ALIGNMENT - size % BYTE_ALIGNMENT);
          }
          assert size < 0x1_0000_0000;  // nothing wraps in a 32-bit size_t
        }
        if size > 0 && size <= freeBytes {
          var previous, block := FindBlock(size);
          if block != pxEnd {
            pv := HandOut(previous, block, size);
          }
        }
      }
      LeastSnoc(least, past, heap);
      past := past + [heap];
      InUse();
      if pv != NULL { HandedOut(was, wanted); }
    }

    lemma InUse()
      requires Valid() && pxEnd != NULL
      ensures freeBytes == SumSizes(heap.free) && LiveAt(heap.live)
    {
    }

    /** The successful branch of pvPortMalloc. */
    method HandOut(previous: nat, block: nat, size: nat) returns (pv: nat)
      requires Valid() && pxEnd == end && Aligned(size) && MINIMUM_BLOCK_SIZE <= size
      requires var k := FirstFit(heap.free, size);
               k < |heap.free| && previous == PointerBefore(heap.free, k) && block == heap.free[k].addr
      modifies this`xStartNext, this`freeBytes, this`minimumEverFreeBytes, this`heap, mem
      ensures Valid() && pxEnd == end
      ensures var k := FirstFit(old(heap.free), size);
                heap == Taken(old(heap), k, size) && pv == block + HEAP_STRUCT_SIZE
      ensures minimumEverFreeBytes == Min(old(minimumEverFreeBytes), SumSizes(heap.free))
    {
      hide Inv, FirstFit, SumSizes, Splice, Separated, LiveOutside;
      ghost var k := FirstFit(heap.free, size);
      TakenInv(heap, k, size);
      TakenSum(heap, k, size);
      SumSizesAt(heap.free, k);
      FreeIsNotLive(heap, k);
      LiveIsOutside(heap);
      pv := Next(previous) + HEAP_STRUCT_SIZE;
      Take(previous, block, size, heap.free, k, heap.live);
      heap := Taken(heap, k, size);
    }

    lemma OnlyPrevious(f: seq<Block>, k: nat)
      requires Geometry() && BlocksInside(f) && Separated(f) && k < |f|
      ensures forall j {:trigger f[j]} | 0 <= j < |f| && j + 1 != k :: f[j].addr != PointerBefore(f, k)
      ensures PointerBefore(f, k) != f[k].addr
    {
    }

    /** Takes the header at position k out of the list. */
    method Unlink(previous: nat, block: nat, ghost f: seq<Block>, ghost k: nat)
      requires Geometry() && ListAt(f)
      requires k < |f| && previous == PointerBefore(f, k) && block == f[k].addr
      modifies this`xStartNext, mem
      ensures ListAt(Splice(f, k, k + 1, []))
      ensures forall c | IsCell(c) && c != previous :: At(c) == old(At(c))
    {
      hide Separated, Splice;
      SpliceSeparated(f, k, k + 1, []);
      OnlyPrevious(f, k);
      SetNext(previous, Next(block));
      SpliceListed(f, k, k + 1, []);
    }

    // Two headers made out of one, neither of them in the list.
    method Carve(block: nat, size: nat, ghost r: seq<Block>)
      requires Geometry() && ListAt(r) && IsCell(block) && IsCell(block + size) && block < block + size < end
      requires size <= At(block).size && forall j | 0 <= j < |r| :: r[j].addr != block && r[j].addr != block + size
      modifies mem
      ensures ListAt(r)
      ensures At(block + size).size == old(At(block).size) - size && At(block).size == size
      ensures forall c | IsCell(c) && c != block && c != block + size :: At(c) == old(At(c))
    {
      hide Separated;
      SetSize(block + size, Size(block) - size);
      SetSize(block, size);
    }

    // Where the rest of a block lies: inside, apart from the other free blocks and from those in use.
    lemma RestLies(f: seq<Block>, k: nat, size: nat, keep: set<nat>)
      requires Geometry() && Separated(f) && BlocksInside(f) && k < |f| && Aligned(size) && 0 < size
      requires size + MINIMUM_BLOCK_SIZE < f[k].size
      requires forall a | a in keep :: IsCell(a) && (a < f[k].addr || f[k].End() <= a)
      requires forall j | 0 <= j < |f| :: f[j].addr !in keep
      ensures var block, rest, r := f[k].addr, f[k].addr + size, Splice(f, k, k + 1, []);
              && IsCell(block) && IsCell(rest) && f[k].End() <= end && block !in keep && rest !in keep
              && (forall j | 0 <= j < |r| :: r[j].addr != block && r[j].addr != rest && r[j].addr !in keep)
              && Remainder(f[k], size) == [Block(rest, f[k].size - size)] && TakenSize(f[k], size) == size
    {
      hide Splice;
      UnlinkedElsewhere(f, k);
      AlignedDifference(f[k].addr, size);
    }

    /** Keeps the rest of an unlinked block when it is large enough to be useful. */
    method Split(block: nat, size: nat, ghost f: seq<Block>, ghost k: nat, ghost keep: set<nat>)
      requires Geometry() && pxEnd == end && Separated(f) && BlocksInside(f) && k < |f|
      requires ListAt(Splice(f, k, k + 1, []))
      requires block == f[k].addr && At(block).size == f[k].size && Aligned(size) && 0 < size <= f[k].size
      requires forall a | a in keep :: IsCell(a) && (a < block || f[k].End() <= a)
      requires forall j | 0 <= j < |f| :: f[j].addr !in keep
      modifies this`xStartNext, mem
      ensures ListAt(Splice(f, k, k + 1, Remainder(f[k], size)))
      ensures At(block).size == TakenSize(f[k], size)
      ensures forall a | a in keep :: At(a) == old(At(a))
    {
      hide Insert, Splice, Separated, Disjoint, ListAt, BlocksInside, Aligned, Remainder, TakenSize;
      StartsInside(f, k);
      if Size(block) - size > MINIMUM_BLOCK_SIZE {
        ghost var r := Splice(f, k, k + 1, []);
        RemainderInserted(f, k, Block(block + size, f[k].size - size));
        RestLies(f, k, size, keep);
        var newLink := block + size;
        Carve(block, size, r);
        InsertBlockIntoFreeList(newLink, r, keep + {block});
      } else {
        NoRest(f[k], size);
      }
    }

    lemma StartsInside(f: seq<Block>, k: nat)
      requires BlocksInside(f) && k < |f| && 0 < f[k].size
      ensures IsCell(f[k].addr)
    {
    }

    lemma NoRest(b: Block, size: nat)
      requires size <= b.size <= size + MINIMUM_BLOCK_SIZE
      ensures Remainder(b, size) == [] && TakenSize(b, size) == b.size
    {
    }

    /** The part of pvPortMalloc that hands out the block it has found. */
    method Take(previous: nat, block: nat, size: nat, ghost f: seq<Block>, ghost k: nat, ghost live: map<nat, nat>)
      requires Geometry() && pxEnd == end && ListAt(f) && LiveAt(live) && LiveOutside(live, f)
      requires k < |f| && f[k].addr == block && Aligned(size) && 0 < size <= f[k].size <= freeBytes
      requires forall a | a in live :: a < block || f[k].End() <= a
      requires previous == PointerBefore(f, k)
      modifies this`xStartNext, this`freeBytes, this`minimumEverFreeBytes, mem
      ensures ListAt(Splice(f, k, k + 1, Remainder(f[k], size)))
      ensures LiveAt(live[block := TakenSize(f[k], size)])
      ensures freeBytes == old(freeBytes) - TakenSize(f[k], size)
      ensures minimumEverFreeBytes == Min(old(minimumEverFreeBytes), freeBytes)
    {
      hide Splice, Separated, Remainder, TakenSize;
      TakenElsewhere(f, k, size);
      OnlyPrevious(f, k);
      assert previous != block && (previous == xStartAddr || previous !in live);
      Unlink(previous, block, f, k);
      Split(block, size, f, k, live.Keys);
      freeBytes := freeBytes - Size(block);
      if freeBytes < minimumEverFreeBytes {
        minimumEverFreeBytes := freeBytes;
      }
      SetSize(block, Size(block) + BLOCK_ALLOCATED_BIT);
      SetNext(block, NULL);
    }

    /** What the application may pass to vPortFree: nothing, a block it owns, or any place whose header
        does not look like that of a block in use, such as one that has been freed before. */
    ghost predicate MayFree(pv: nat)
      reads `pxEnd, `heap, mem
      requires Geometry()
    {
      var a := pv - HEAP_STRUCT_SIZE;
      pv == NULL || (pxEnd == end && a >= 0 && IsCell(a) && (a in heap.live || !LooksAllocated(At(a))))
    }

    /** What vPortFree finds in front of the pointer it is given: it tells apart what is in use. */
    lemma HeaderOf(pv: nat)
      requires Valid() && MayFree(pv) && pv != NULL
      ensures var a := pv - HEAP_STRUCT_SIZE; IsCell(a) && (LooksAllocated(At(a)) <==> a in heap.live)
    {
    }

    /** A block may be freed again, and nothing happens then. */
    method Free(pv: nat)
      requires Valid() && Tracked() && MayFree(pv)
      modifies this`xStartNext, this`freeBytes, this`heap, this`past, mem
      ensures Valid() && Tracked() && past == old(past) + [heap]
      ensures MayFree(pv) && pv - HEAP_STRUCT_SIZE !in heap.live
      ensures heap == FreeSpec(old(heap), pv)
      ensures pxEnd == old(pxEnd) && (pxEnd != NULL ==> freeBytes == SumSizes(heap.free))
    {
      hide Least, SumSizes, Separated;
      if pxEnd != NULL { LeastIsLess(minimumEverFreeBytes, past); }
      if pv != NULL {
        HeaderOf(pv);
        hide Inv, Insert;
        var link := pv - HEAP_STRUCT_SIZE;
        if At(link).size >= BLOCK_ALLOCATED_BIT {
          if At(link).next == NULL {
            GiveBack(link);
          }
        }
      }
      if pxEnd != NULL { LeastSnoc(minimumEverFreeBytes, past, heap); }
      past := past + [heap];
    }

    /** The releasing branch of vPortFree. */
    method GiveBack(link: nat)
      requires Valid() && pxEnd == end && link in heap.live
      modifies this`xStartNext, this`freeBytes, this`heap, mem
      ensures Valid() && heap == FreeSpec(old(heap), link + HEAP_STRUCT_SIZE)
      ensures !LooksAllocated(At(link)) && SumSizes(old(heap.free)) <= SumSizes(heap.free)
    {
      hide Inv, SumSizes, Insert, Separated, LiveOutside;
      LiveIsDisjoint(heap, link);
      LiveIsOutside(heap);
      LiveIsInside(heap, link);
      FreeInv(heap, link + HEAP_STRUCT_SIZE);
      InsertSum(heap.free, Block(link, heap.live[link]));
      NotReleased(heap, link);
      SetSize(link, At(link).size - BLOCK_ALLOCATED_BIT);
      freeBytes := freeBytes + At(link).size;
      InsertBlockIntoFreeList(link, heap.free, heap.live.Keys - {link});
      heap := FreeSpec(heap, link + HEAP_STRUCT_SIZE);
    }

    /** The application may write anything into the memory it was given without disturbing the heap. */
    method ApplicationWrite(p: nat, garbage: BlockLink, ghost a: nat)
      requires Valid() && pxEnd != NULL && Aligned(p)
      requires a in heap.live && a + HEAP_STRUCT_SIZE <= p < a + heap.live[a]
      modifies mem
      ensures Valid()
    {
      assert Inside(heap, Block(a, heap.live[a]));
      forall k | 0 <= k < |heap.free| ensures heap.free[k].addr != p { FreeIsNotLive(heap, k); }
      assert p !in heap.live && p < end;
      hide Inv, SumSizes, Separated;
      mem[p - start] := garbage;
      assert forall c | IsCell(c) && c != p :: At(c) == old(At(c));
    }
  }
}
