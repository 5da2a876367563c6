/**
  The heap seen from its callers: the blocks that are allocated, in address order.

  The free list is not part of this view. It is the function Gaps of the live blocks, the list of the
  maximal runs of bytes between them. The allocator in FreeListHeap has to keep its linked list
  equal to that function.
 */
module LiveBlocks {
  import opened Machine

  const HEADER_SIZE := 8
  const ENTRY_SIZE := 12

  datatype Block = Block(addr: int, size: int) {
    function End(): int { addr + size }
    predicate Contains(b: int) { addr <= b < End() }
    predicate HoldsWord(a: int) { addr <= a && a + 4 <= End() }
  }

  function Hole(lo: int, hi: int): seq<Block> {
    if lo < hi then [Block(lo, hi - lo)] else []
  }

  /** The free blocks of a heap [lo, hi) whose live blocks are given. */
  function Gaps(lo: int, hi: int, live: seq<Block>): seq<Block>
    decreases live
  {
    if live == [] then Hole(lo, hi)
    else if lo < live[0].addr then [Block(lo, live[0].addr - lo)] + Gaps(live[0].End(), hi, live[1..])
    else Gaps(live[0].End(), hi, live[1..])
  }

  /** A hole must be able to hold a list entry. */
  predicate HoleOk(lo: int, hi: int) {
    lo == hi || lo + ENTRY_SIZE <= hi
  }

  /** The live blocks lie in [lo, hi) in address order, disjoint, with usable holes between them. */
  predicate Ordered(lo: int, hi: int, live: seq<Block>)
    decreases live
  {
    if live == [] then HoleOk(lo, hi)
    else HoleOk(lo, live[0].addr) && live[0].size >= ENTRY_SIZE && Ordered(live[0].End(), hi, live[1..])
  }

  function Total(bs: seq<Block>): int {
    if bs == [] then 0 else bs[0].size + Total(bs[1..])
  }

  lemma {:induction false} TotalStep(bs: seq<Block>, i: nat)
    requires i < |bs|
    ensures Total(bs[..i + 1]) == Total(bs[..i]) + bs[i].size
  {
    if i > 0 {
      TotalStep(bs[1..], i - 1);
      assert bs[..i + 1][1..] == bs[1..][..i] && bs[..i][1..] == bs[1..][..i - 1];
    } else {
      assert bs[..1][1..] == [];
    }
  }

  predicate Owns(bs: seq<Block>, b: int) {
    exists i :: 0 <= i < |bs| && bs[i].Contains(b)
  }

  // ---- the shape of the gaps

  lemma {:induction false} OrderedBounds(lo: int, hi: int, live: seq<Block>)
    requires Ordered(lo, hi, live)
    ensures lo <= hi
    ensures forall i :: 0 <= i < |live| ==>
              live[i].size >= ENTRY_SIZE && lo <= live[i].addr && live[i].End() <= hi
    ensures forall i, j :: 0 <= i < j < |live| ==> live[i].End() <= live[j].addr
    decreases live
  {
    if live != [] {
      OrderedBounds(live[0].End(), hi, live[1..]);
      forall i | 1 <= i < |live|
        ensures live[i].size >= ENTRY_SIZE && live[0].End() <= live[i].addr && live[i].End() <= hi
      {
        assert live[i] == live[1..][i - 1];
      }
      forall i, j | 1 <= i < j < |live| ensures live[i].End() <= live[j].addr {
        assert live[i] == live[1..][i - 1] && live[j] == live[1..][j - 1];
      }
    }
  }

  /** Blocks of usable size inside [lo, hi), in address order, no two of them touching. */
  predicate Separate(lo: int, hi: int, g: seq<Block>) {
    && (forall i :: 0 <= i < |g| ==> g[i].size >= ENTRY_SIZE && lo <= g[i].addr && g[i].End() <= hi)
    && (forall i, j :: 0 <= i < j < |g| ==> g[i].End() < g[j].addr)
  }

  /** The free blocks are separate. */
  lemma {:induction false} GapsShape(lo: int, hi: int, live: seq<Block>)
    requires Ordered(lo, hi, live)
    ensures Separate(lo, hi, Gaps(lo, hi, live))
    decreases live
  {
    if live != [] {
      OrderedBounds(lo, hi, live);
      var g, t := Gaps(lo, hi, live), Gaps(live[0].End(), hi, live[1..]);
      GapsShape(live[0].End(), hi, live[1..]);
      if lo < live[0].addr {
        assert forall i :: 1 <= i < |g| ==> g[i] == t[i - 1];
      }
    }
  }

  /** Free and live blocks together account for every byte of the heap. */
  lemma {:induction false} Conservation(lo: int, hi: int, live: seq<Block>)
    requires Ordered(lo, hi, live)
    ensures Total(Gaps(lo, hi, live)) + Total(live) == hi - lo
    decreases live
  {
    if live != [] {
      Conservation(live[0].End(), hi, live[1..]);
    }
  }

  lemma OwnsConcat(p: seq<Block>, q: seq<Block>, b: int)
    ensures Owns(p + q, b) <==> Owns(p, b) || Owns(q, b)
  {
    if Owns(p, b) {
      var i :| 0 <= i < |p| && p[i].Contains(b);
      assert (p + q)[i].Contains(b);
    }
    if Owns(q, b) {
      var i :| 0 <= i < |q| && q[i].Contains(b);
      assert (p + q)[|p| + i].Contains(b);
    }
  }

  lemma OwnsOne(c: Block, b: int)
    ensures Owns([c], b) <==> c.Contains(b)
  {
    if c.Contains(b) {
      assert [c][0].Contains(b);
    }
  }

  /** Every byte of the heap is owned by a free block or by a live block, and never by both. */
  lemma {:induction false} Tiling(lo: int, hi: int, live: seq<Block>, b: int)
    requires Ordered(lo, hi, live)
    ensures lo <= b < hi ==> (Owns(Gaps(lo, hi, live), b) <==> !Owns(live, b))
    ensures !(lo <= b < hi) ==> !Owns(Gaps(lo, hi, live), b) && !Owns(live, b)
    decreases live
  {
    if live == [] {
      OwnsOne(Block(lo, hi - lo), b);
    } else {
      OrderedBounds(lo, hi, live);
      Tiling(live[0].End(), hi, live[1..], b);
      OwnsOne(Block(lo, live[0].addr - lo), b);
      OwnsOne(live[0], b);
      OwnsConcat([Block(lo, live[0].addr - lo)], Gaps(live[0].End(), hi, live[1..]), b);
      OwnsConcat([live[0]], live[1..], b);
      assert live == [live[0]] + live[1..];
    }
  }

  /** The free blocks are the maximal runs: a range that no live block meets lies in one free block. */
  lemma {:induction false} GapsAreMaximal(lo: int, hi: int, live: seq<Block>, x: int, y: int)
    requires Ordered(lo, hi, live)
    requires lo <= x < y <= hi
    requires forall b :: x <= b < y ==> !Owns(live, b)
    ensures exists i :: 0 <= i < |Gaps(lo, hi, live)| &&
                        Gaps(lo, hi, live)[i].addr <= x && y <= Gaps(lo, hi, live)[i].End()
    decreases live
  {
    var g := Gaps(lo, hi, live);
    if live == [] {
      assert g[0].addr <= x && y <= g[0].End();
    } else {
      var t := Gaps(live[0].End(), hi, live[1..]);
      var o := if x < live[0].addr then live[0].addr else x;
      if o < y {
        assert !Owns(live, o);
        assert !live[0].Contains(o);
      }
      if x < live[0].addr {
        assert g[0].addr <= x && y <= g[0].End();
      } else {
        forall b | x <= b < y ensures !Owns(live[1..], b) {
          OwnsConcat([live[0]], live[1..], b);
          assert live == [live[0]] + live[1..];
        }
        GapsAreMaximal(live[0].End(), hi, live[1..], x, y);
        var i :| 0 <= i < |t| && t[i].addr <= x && y <= t[i].End();
        assert t[i] == if lo < live[0].addr then g[1 + i] else g[i];
      }
    }
  }

  /** No block of g overlaps a block of live. */
  predicate Apart(g: seq<Block>, live: seq<Block>) {
    forall i, p :: 0 <= i < |g| && 0 <= p < |live| ==> g[i].End() <= live[p].addr || live[p].End() <= g[i].addr
  }

  lemma GapsMissLive(lo: int, hi: int, live: seq<Block>)
    requires Ordered(lo, hi, live)
    ensures Apart(Gaps(lo, hi, live), live)
  {
    var g := Gaps(lo, hi, live);
    OrderedBounds(lo, hi, live);
    GapsShape(lo, hi, live);
    forall i, p | 0 <= i < |g| && 0 <= p < |live| ensures g[i].End() <= live[p].addr || live[p].End() <= g[i].addr {
      var b := if g[i].addr < live[p].addr then live[p].addr else g[i].addr;
      Tiling(lo, hi, live, b);
      assert !(g[i].Contains(b) && live[p].Contains(b));
    }
  }

  lemma GapMissesBlock(lo: int, hi: int, live: seq<Block>, i: nat, x: Block)
    requires Ordered(lo, hi, live) && i < |Gaps(lo, hi, live)| && x in live
    ensures Gaps(lo, hi, live)[i].End() <= x.addr || x.End() <= Gaps(lo, hi, live)[i].addr
    ensures Gaps(lo, hi, live)[i].size >= ENTRY_SIZE
  {
    GapsShape(lo, hi, live);
    GapsMissLive(lo, hi, live);
    var q :| 0 <= q < |live| && live[q] == x;
  }

  // ---- allocation

  /** What the allocator asks of the free list for a request: header added in 32 bits, at least one entry. */
  function Need(request: int): int {
    Max(ToUint32(request + HEADER_SIZE), ENTRY_SIZE)
  }

  /** The first block of f that is large enough, or |f|. */
  function FirstFit(f: seq<Block>, need: int): (k: nat)
    ensures k <= |f|
    ensures forall i :: 0 <= i < k ==> f[i].size < need
    ensures k < |f| ==> need <= f[k].size
  {
    if f == [] || need <= f[0].size then 0 else 1 + FirstFit(f[1..], need)
  }

  /** A remainder too small for a list entry is given away with the block. */
  function Granted(size: int, need: int): int {
    if size - need < ENTRY_SIZE then size else need
  }

  /** n is the least size from need on that can be cut off a block of the given size: all of it, or room for an entry. */
  predicate LeastUsable(n: int, need: int, size: int) {
    need <= n <= size && HoleOk(n, size) && forall m :: need <= m < n ==> !HoleOk(m, size)
  }

  lemma GrantedLeast(size: int, need: int, n: int)
    requires need <= size
    ensures LeastUsable(n, need, size) <==> n == Granted(size, need)
  {
    if LeastUsable(n, need, size) {
      assert need < n ==> !HoleOk(need, size);
    }
  }

  lemma {:induction false} FirstFitIs(f: seq<Block>, need: int, i: nat)
    requires i <= |f|
    requires forall j :: 0 <= j < i ==> f[j].size < need
    requires i < |f| ==> need <= f[i].size
    ensures FirstFit(f, need) == i
  {
    if i > 0 {
      FirstFitIs(f[1..], need, i - 1);
    }
  }

  /** The block a request is served with: the front of the lowest free block that is large enough. */
  function Chosen(f: seq<Block>, request: int): Option<Block> {
    var k := FirstFit(f, Need(request));
    if k == |f| then None else Some(Block(f[k].addr, Granted(f[k].size, Need(request))))
  }

  /** A new live block takes its place in address order. */
  function Insert(live: seq<Block>, b: Block): seq<Block> {
    if live == [] || b.addr < live[0].addr then [b] + live
    else [live[0]] + Insert(live[1..], b)
  }

  /** The free list after the first n bytes of its block k were taken. */
  function ShrinkAt(f: seq<Block>, k: nat, n: int): seq<Block>
    requires k < |f|
  {
    if n == f[k].size then f[..k] + f[k + 1..]
    else f[k := Block(f[k].addr + n, f[k].size - n)]
  }

  lemma ShrinkAtCons(c: Block, f: seq<Block>, k: nat, n: int)
    requires k < |f|
    ensures ShrinkAt([c] + f, k + 1, n) == [c] + ShrinkAt(f, k, n)
  {
    var g := [c] + f;
    assert g[k + 1] == f[k];
    if n == f[k].size {
      assert g[..k + 1] == [c] + f[..k] && g[k + 2..] == f[k + 1..];
    } else {
      var b := Block(f[k].addr + n, f[k].size - n);
      hide ShrinkAt;
      assert g[k + 1 := b] == [c] + f[k := b];
    }
  }

  lemma InsertFirst(lo: int, hi: int, live: seq<Block>, n: int)
    requires Ordered(lo, hi, live)
    requires var next := if live == [] then hi else live[0].addr;
             lo < next && ENTRY_SIZE <= n && HoleOk(n, next - lo)
    ensures var b := Block(lo, n);
            && Ordered(lo, hi, Insert(live, b))
            && Gaps(lo, hi, Insert(live, b)) == ShrinkAt(Gaps(lo, hi, live), 0, n)
  {
    var b := Block(lo, n);
    var g := Gaps(lo, hi, live);
    assert Insert(live, b) == [b] + live && ([b] + live)[1..] == live;
    assert Gaps(lo, hi, [b] + live) == Gaps(b.End(), hi, live);
    if live == [] {
      assert g == [Block(lo, hi - lo)] && g[1..] == [];
    } else {
      assert g[1..] == Gaps(live[0].End(), hi, live[1..]);
    }
  }

  /** Taking the front of a gap changes that gap alone. */
  lemma {:induction false} InsertGaps(lo: int, hi: int, live: seq<Block>, k: nat, n: int)
    requires Ordered(lo, hi, live)
    requires k < |Gaps(lo, hi, live)|
    requires ENTRY_SIZE <= n && HoleOk(n, Gaps(lo, hi, live)[k].size)
    ensures var g := Gaps(lo, hi, live);
            var b := Block(g[k].addr, n);
            && Ordered(lo, hi, Insert(live, b))
            && Gaps(lo, hi, Insert(live, b)) == ShrinkAt(g, k, n)
    decreases live
  {
    if live == [] || (lo < live[0].addr && k == 0) {
      InsertFirst(lo, hi, live, n);
    } else {
      var k' := if lo < live[0].addr then k - 1 else k;
      assert Gaps(lo, hi, live)[k] == Gaps(live[0].End(), hi, live[1..])[k'];
      InsertGaps(live[0].End(), hi, live[1..], k', n);
      InsertLater(lo, hi, live, k', n);
    }
  }

  lemma InsertLater(lo: int, hi: int, live: seq<Block>, k: nat, n: int)
    requires live != [] && Ordered(lo, hi, live)
    requires k < |Gaps(live[0].End(), hi, live[1..])|
    requires var t := Gaps(live[0].End(), hi, live[1..]);
             var rest := Insert(live[1..], Block(t[k].addr, n));
             Ordered(live[0].End(), hi, rest) && Gaps(live[0].End(), hi, rest) == ShrinkAt(t, k, n)
    ensures var b := Block(Gaps(live[0].End(), hi, live[1..])[k].addr, n);
            && Ordered(lo, hi, Insert(live, b))
            && Gaps(lo, hi, Insert(live, b)) ==
               ShrinkAt(Gaps(lo, hi, live), if lo < live[0].addr then k + 1 else k, n)
  {
    var t := Gaps(live[0].End(), hi, live[1..]);
    var b := Block(t[k].addr, n);
    GapsShape(live[0].End(), hi, live[1..]);
    assert Insert(live, b) == [live[0]] + Insert(live[1..], b);
    assert Insert(live, b)[1..] == Insert(live[1..], b);
    ShrinkAtCons(Block(lo, live[0].addr - lo), t, k, n);
  }

  lemma {:induction false} InsertMembers(live: seq<Block>, b: Block)
    ensures forall x :: x in Insert(live, b) <==> x in live || x == b
  {
    if live != [] && b.addr >= live[0].addr {
      InsertMembers(live[1..], b);
      assert live == [live[0]] + live[1..];
    }
  }

  lemma ShrinkAddrs(f: seq<Block>, i: nat, n: int)
    requires i < |f| && ENTRY_SIZE <= n && HoleOk(n, f[i].size)
    requires forall j, k :: 0 <= j < k < |f| ==> f[j].End() < f[k].addr
    requires forall j :: 0 <= j < |f| ==> ENTRY_SIZE <= f[j].size
    ensures var g := ShrinkAt(f, i, n);
            forall j :: 0 <= j < |g| ==> g[j].addr + ENTRY_SIZE <= f[i].addr || f[i].addr + n <= g[j].addr
  {
    var g := ShrinkAt(f, i, n);
    forall j | 0 <= j < |g| ensures g[j].addr + ENTRY_SIZE <= f[i].addr || f[i].addr + n <= g[j].addr {
      if n == f[i].size {
        assert g[j] == if j < i then f[j] else f[j + 1];
      } else {
        assert j != i ==> g[j] == f[j];
      }
    }
  }

  // ---- release

  /** A list of blocks without block p. */
  function Remove(blocks: seq<Block>, p: nat): seq<Block>
    requires p < |blocks|
  {
    blocks[..p] + blocks[p + 1..]
  }

  /** The position of the live block at address a, or |live|. */
  function Find(live: seq<Block>, a: int): (p: nat)
    ensures p <= |live|
    ensures p < |live| ==> live[p].addr == a
  {
    if live == [] || live[0].addr == a then 0 else 1 + Find(live[1..], a)
  }

  predicate LiveAt(live: seq<Block>, a: int) {
    Find(live, a) < |live|
  }

  function RemoveAt(live: seq<Block>, a: int): seq<Block>
    requires LiveAt(live, a)
  {
    Remove(live, Find(live, a))
  }

  /** A block put in front of a free list none of whose blocks ends below it, joined with what it touches. */
  function CoalesceFront(f: seq<Block>, b: Block): seq<Block> {
    if f == [] then [b]
    else if f[0].End() == b.addr then
      if |f| > 1 && f[1].addr == b.End() then [Block(f[0].addr, f[0].size + b.size + f[1].size)] + f[2..]
      else [Block(f[0].addr, f[0].size + b.size)] + f[1..]
    else if f[0].addr == b.End() then [Block(b.addr, b.size + f[0].size)] + f[1..]
    else [b] + f
  }

  /** A block returned to an ordered free list. */
  function Coalesce(f: seq<Block>, b: Block): seq<Block> {
    if f != [] && f[0].End() < b.addr then [f[0]] + Coalesce(f[1..], b) else CoalesceFront(f, b)
  }

  lemma CoalesceIsFront(f: seq<Block>, b: Block)
    requires f != [] ==> b.addr <= f[0].End()
    ensures Coalesce(f, b) == CoalesceFront(f, b)
  {
  }

  /** Coalesce with the position it acts at made explicit. */
  lemma {:induction false} CoalesceAt(f: seq<Block>, b: Block, i: nat)
    requires i <= |f|
    requires forall j :: 0 <= j < i ==> f[j].End() < b.addr
    requires i < |f| ==> b.addr <= f[i].End()
    ensures Coalesce(f, b) == f[..i] + CoalesceFront(f[i..], b)
  {
    hide *;
    if i == 0 {
      CoalesceIsFront(f, b);
      assert f[0..] == f;
      assert f[..0] + CoalesceFront(f, b) == CoalesceFront(f, b);
    } else {
      CoalescePast(f, b);
      CoalesceAt(f[1..], b, i - 1);
      assert f[1..][i - 1..] == f[i..];
      assert f[..i] == [f[0]] + f[1..][..i - 1];
    }
  }

  lemma CoalescePast(f: seq<Block>, b: Block)
    requires f != [] && f[0].End() < b.addr
    ensures Coalesce(f, b) == [f[0]] + Coalesce(f[1..], b)
  {
  }

  /** The four ways a block can meet its neighbours in the free list. */
  lemma CoalesceBetween(lo: int, b: Block, next: int, t: seq<Block>)
    requires HoleOk(lo, b.addr) && b.size >= ENTRY_SIZE && HoleOk(b.End(), next)
    requires t != [] ==> next < t[0].addr && t[0].size >= ENTRY_SIZE
    ensures var f := Hole(lo, b.addr) + Hole(b.End(), next) + t;
            CoalesceFront(f, b) == [Block(lo, next - lo)] + t && (f != [] ==> b.addr <= f[0].End())
  {
    var below, above := Block(lo, b.addr - lo), Block(b.End(), next - b.End());
    var f := Hole(lo, b.addr) + Hole(b.End(), next) + t;
    if lo < b.addr && b.End() < next {
      assert f[0] == below && f[1] == above && f[2..] == t;
    } else if lo < b.addr {
      assert f[0] == below && f[1..] == t;
    } else if b.End() < next {
      assert f[0] == above && f[1..] == t;
    } else {
      assert f == t;
    }
  }

  /** The start of the first live block, or the end of the heap. */
  function FirstStart(hi: int, live: seq<Block>): int {
    if live == [] then hi else live[0].addr
  }

  function GapsAfterFirst(hi: int, live: seq<Block>): seq<Block> {
    if live == [] then [] else Gaps(live[0].End(), hi, live[1..])
  }

  lemma GapsUnfold(lo: int, hi: int, live: seq<Block>)
    requires Ordered(lo, hi, live)
    ensures Gaps(lo, hi, live) == Hole(lo, FirstStart(hi, live)) + GapsAfterFirst(hi, live)
    ensures HoleOk(lo, FirstStart(hi, live))
  {
  }

  lemma GapsAfterFirstStart(lo: int, hi: int, live: seq<Block>, t: seq<Block>)
    requires Ordered(lo, hi, live) && t == GapsAfterFirst(hi, live)
    ensures t != [] ==> FirstStart(hi, live) < t[0].addr && t[0].size >= ENTRY_SIZE
  {
    if live != [] {
      GapsShape(live[0].End(), hi, live[1..]);
    }
  }

  lemma RemoveFirst(lo: int, hi: int, live: seq<Block>)
    requires Ordered(lo, hi, live) && live != []
    ensures Ordered(lo, hi, live[1..])
    ensures Gaps(lo, hi, live[1..]) == Coalesce(Gaps(lo, hi, live), live[0])
  {
    hide *;
    var b, rest := live[0], live[1..];
    var next, t := FirstStart(hi, rest), GapsAfterFirst(hi, rest);
    RemoveFirstFacts(lo, hi, live);
    CoalesceBetween(lo, b, next, t);
    CoalesceIsFront(Gaps(lo, hi, live), b);
  }

  lemma RemoveFirstFacts(lo: int, hi: int, live: seq<Block>)
    requires Ordered(lo, hi, live) && live != []
    ensures Ordered(lo, hi, live[1..])
    ensures var b, rest := live[0], live[1..];
            var next, t := FirstStart(hi, rest), GapsAfterFirst(hi, rest);
            && HoleOk(lo, b.addr) && b.size >= ENTRY_SIZE && HoleOk(b.End(), next)
            && (t != [] ==> next < t[0].addr && t[0].size >= ENTRY_SIZE)
            && Gaps(lo, hi, live) == Hole(lo, b.addr) + Hole(b.End(), next) + t
            && Gaps(lo, hi, rest) == [Block(lo, next - lo)] + t
  {
    hide Gaps;
    var b, rest := live[0], live[1..];
    GapsUnfold(lo, hi, live);
    GapsUnfold(b.End(), hi, rest);
    assert Ordered(lo, hi, rest);
    GapsUnfold(lo, hi, rest);
    GapsAfterFirstStart(b.End(), hi, rest, GapsAfterFirst(hi, rest));
    assert Hole(lo, b.addr) + (Hole(b.End(), FirstStart(hi, rest)) + GapsAfterFirst(hi, rest)) ==
           Hole(lo, b.addr) + Hole(b.End(), FirstStart(hi, rest)) + GapsAfterFirst(hi, rest);
  }

  /** What is left when a live block goes is exactly the old free list with that block coalesced in. */
  lemma {:induction false} RemoveGaps(lo: int, hi: int, live: seq<Block>, p: nat)
    requires Ordered(lo, hi, live)
    requires p < |live|
    ensures Ordered(lo, hi, Remove(live, p))
    ensures Gaps(lo, hi, Remove(live, p)) == Coalesce(Gaps(lo, hi, live), live[p])
    decreases live
  {
    var b, rest := live[0], live[1..];
    if p == 0 {
      RemoveFirst(lo, hi, live);
      assert Remove(live, 0) == rest;
    } else {
      RemoveGaps(b.End(), hi, rest, p - 1);
      assert live[p] == rest[p - 1];
      RemoveLater(lo, hi, live, p);
    }
  }

  lemma RemoveLater(lo: int, hi: int, live: seq<Block>, p: nat)
    requires Ordered(lo, hi, live)
    requires 0 < p < |live|
    requires Ordered(live[0].End(), hi, Remove(live[1..], p - 1))
    requires Gaps(live[0].End(), hi, Remove(live[1..], p - 1)) ==
             Coalesce(Gaps(live[0].End(), hi, live[1..]), live[p])
    ensures Ordered(lo, hi, Remove(live, p))
    ensures Gaps(lo, hi, Remove(live, p)) == Coalesce(Gaps(lo, hi, live), live[p])
  {
    var b, rest := live[0], live[1..];
    OrderedBounds(lo, hi, live);
    assert Remove(live, p) == [b] + Remove(rest, p - 1);
    assert Remove(live, p)[1..] == Remove(rest, p - 1);
    if lo < b.addr {
      var g := Gaps(lo, hi, live);
      assert g[0].End() < live[p].addr && g[1..] == Gaps(b.End(), hi, rest);
    }
  }

  lemma RemoveMembers(lo: int, hi: int, live: seq<Block>, p: nat, x: Block)
    requires Ordered(lo, hi, live) && p < |live| && x in Remove(live, p)
    ensures x in live && x.size >= ENTRY_SIZE && (live[p].addr + ENTRY_SIZE <= x.addr || x.End() <= live[p].addr)
  {
    OrderedBounds(lo, hi, live);
    var q :| 0 <= q < |Remove(live, p)| && Remove(live, p)[q] == x;
    assert x == live[if q < p then q else q + 1];
  }
}
