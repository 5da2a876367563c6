/**
  The heap allocator of core/free_llist_allocator.cpp over the linked list of FreeList and the live blocks of
  LiveBlocks. A heap is valid when the list in memory is exactly the list of maximal runs between its live
  blocks; every method keeps that and says which block comes or goes.
 */
module FreeListHeap {
  import opened Machine
  import opened LiveBlocks
  import opened FreeList
  import opened HeapRuns

  const ALLOC_HEADER_CHECKSUM := 0xCAFE1234

  /** The assertion at the head of free. */
  predicate HasHeader(m: Memory, a: int) {
    Word(m, a) == ALLOC_HEADER_CHECKSUM && Word(m, a + 4) > HEADER_SIZE
  }

  /** Every live block starts with its header. */
  ghost predicate Headers(m: Memory, live: seq<Block>) {
    forall x :: x in live ==> Word(m, x.addr) == ALLOC_HEADER_CHECKSUM && Word(m, x.addr + 4) == x.size
  }

  /** No word that lies inside one of the blocks bs differs between m and m'. */
  ghost predicate KeepsBlocks(m: Memory, m': Memory, bs: seq<Block>) {
    forall x, a :: x in bs && x.HoldsWord(a) ==> Word(m', a) == Word(m, a)
  }

  lemma KeepsAll(m: Memory, bs: seq<Block>)
    ensures KeepsBlocks(m, m, bs)
  {
  }

  /** Writes to the free list and inside block b reach no live block other than b. */
  lemma LiveUntouched(m: Memory, m': Memory, lo: int, hi: int, live: seq<Block>, p: int, x: Block)
    requires ENTRY_SIZE <= lo && Ordered(lo, hi, live)
    requires ChangedOnly(m, m', Gaps(lo, hi, live), p)
    requires x in live && (p + ENTRY_SIZE <= x.addr || x.End() <= p)
    ensures forall a :: x.HoldsWord(a) ==> Word(m', a) == Word(m, a)
    ensures x.size >= ENTRY_SIZE
  {
    var g := Gaps(lo, hi, live);
    OrderedBounds(lo, hi, live);
    GapsShape(lo, hi, live);
    GapsMissLive(lo, hi, live);
    var q :| 0 <= q < |live| && live[q] == x;
    forall a | x.HoldsWord(a) ensures Word(m', a) == Word(m, a) {
      assert OffList(g, a);
    }
  }

  /** A header at a, clear of every entry, leaves the list alone. */
  lemma HeaderKeepsChain(m: Memory, first: int, f: seq<Block>, a: int, n: int)
    requires Chain(m, first, f)
    requires forall j :: 0 <= j < |f| ==> f[j].addr + ENTRY_SIZE <= a || a + ENTRY_SIZE <= f[j].addr
    ensures Chain(m[a := ALLOC_HEADER_CHECKSUM][a + 4 := n], first, f)
  {
    ChainKept(m, m[a := ALLOC_HEADER_CHECKSUM][a + 4 := n], first, f);
  }

  lemma HeadersInsert(m: Memory, m': Memory, live: seq<Block>, b: Block)
    requires Headers(m, live) && KeepsBlocks(m, m', live)
    requires forall x :: x in live ==> x.size >= ENTRY_SIZE
    requires Word(m', b.addr) == ALLOC_HEADER_CHECKSUM && Word(m', b.addr + 4) == b.size
    ensures Headers(m', Insert(live, b))
  {
    InsertMembers(live, b);
    forall x | x in live ensures Word(m', x.addr) == Word(m, x.addr) && Word(m', x.addr + 4) == Word(m, x.addr + 4) {
      assert x.HoldsWord(x.addr) && x.HoldsWord(x.addr + 4);
    }
  }

  /** The header of a fresh block at gap i and the list's own writes reach no live block. */
  lemma AllocKeepsBlocks(m: Memory, m1: Memory, lo: int, hi: int, live: seq<Block>, i: nat, n: int)
    requires ENTRY_SIZE <= lo && Ordered(lo, hi, live)
    requires i < |Gaps(lo, hi, live)| && ENTRY_SIZE <= n && HoleOk(n, Gaps(lo, hi, live)[i].size)
    requires var f := Gaps(lo, hi, live);
             ChangedOnly(m, m1, f, if n == f[i].size then f[i].addr else f[i].addr + n)
    ensures var a := Gaps(lo, hi, live)[i].addr;
            KeepsBlocks(m, m1[a := ALLOC_HEADER_CHECKSUM][a + 4 := n], live)
    ensures forall x :: x in live ==> x.size >= ENTRY_SIZE
  {
    var f := Gaps(lo, hi, live);
    var p := if n == f[i].size then f[i].addr else f[i].addr + n;
    forall x | x in live
      ensures x.size >= ENTRY_SIZE && (f[i].End() <= x.addr || x.End() <= f[i].addr)
      ensures forall a :: x.HoldsWord(a) ==> Word(m1, a) == Word(m, a)
    {
      GapMissesBlock(lo, hi, live, i, x);
      LiveUntouched(m, m1, lo, hi, live, p, x);
    }
  }

  lemma AllocKeepsChain(m1: Memory, lo: int, hi: int, live: seq<Block>, i: nat, n: int, first: int)
    requires Ordered(lo, hi, live)
    requires i < |Gaps(lo, hi, live)| && ENTRY_SIZE <= n && HoleOk(n, Gaps(lo, hi, live)[i].size)
    requires Chain(m1, first, ShrinkAt(Gaps(lo, hi, live), i, n))
    ensures var b := Block(Gaps(lo, hi, live)[i].addr, n);
            && Ordered(lo, hi, Insert(live, b))
            && Chain(m1[b.addr := ALLOC_HEADER_CHECKSUM][b.addr + 4 := n], first, Gaps(lo, hi, Insert(live, b)))
  {
    hide Gaps, Ordered, Insert, ShrinkAt;
    var f := Gaps(lo, hi, live);
    GapsShape(lo, hi, live);
    ShrinkAddrs(f, i, n);
    HeaderKeepsChain(m1, first, ShrinkAt(f, i, n), f[i].addr, n);
    InsertGaps(lo, hi, live, i, n);
  }

  lemma AllocKeepsHeaders(m: Memory, m1: Memory, lo: int, hi: int, live: seq<Block>, i: nat, n: int)
    requires ENTRY_SIZE <= lo && Ordered(lo, hi, live) && Headers(m, live)
    requires i < |Gaps(lo, hi, live)| && ENTRY_SIZE <= n && HoleOk(n, Gaps(lo, hi, live)[i].size)
    requires var f := Gaps(lo, hi, live);
             ChangedOnly(m, m1, f, if n == f[i].size then f[i].addr else f[i].addr + n)
    ensures var b := Block(Gaps(lo, hi, live)[i].addr, n);
            var m2 := m1[b.addr := ALLOC_HEADER_CHECKSUM][b.addr + 4 := n];
            Headers(m2, Insert(live, b)) && KeepsBlocks(m, m2, live)
  {
    var b := Block(Gaps(lo, hi, live)[i].addr, n);
    var m2 := m1[b.addr := ALLOC_HEADER_CHECKSUM][b.addr + 4 := n];
    AllocKeepsBlocks(m, m1, lo, hi, live, i, n);
    HeadersInsert(m, m2, live, b);
  }

  /** The invariant: the list in memory is the list of maximal runs between the live blocks. */
  ghost predicate HeapOk(m: Memory, first: int, lo: int, size: int, live: seq<Block>) {
    && ENTRY_SIZE <= lo && ENTRY_SIZE <= size && lo + size <= TWO_32
    && Ordered(lo, lo + size, live)
    && Chain(m, first, Gaps(lo, lo + size, live))
    && Headers(m, live)
  }

  lemma HeapFacts(m: Memory, first: int, lo: int, size: int, live: seq<Block>, f: seq<Block>)
    requires HeapOk(m, first, lo, size, live) && f == Gaps(lo, lo + size, live)
    ensures ENTRY_SIZE <= lo && lo + size <= TWO_32
    ensures Chain(m, first, f) && Separate(lo, lo + size, f)
  {
    hide Gaps;
    GapsShape(lo, lo + size, live);
  }

  lemma SeparateAt(lo: int, hi: int, f: seq<Block>, i: nat)
    requires Separate(lo, hi, f) && i < |f|
    ensures ENTRY_SIZE <= f[i].size && lo <= f[i].addr && f[i].End() <= hi
    ensures i + 1 < |f| ==> f[i].End() < f[i + 1].addr
  {
  }

  lemma AllocOk(m: Memory, m1: Memory, first0: int, first: int, lo: int, size: int, live: seq<Block>, f: seq<Block>,
                i: nat, n: int)
    requires HeapOk(m, first0, lo, size, live) && f == Gaps(lo, lo + size, live)
    requires i < |f| && ENTRY_SIZE <= n && HoleOk(n, f[i].size)
    requires Chain(m1, first, ShrinkAt(f, i, n))
    requires ChangedOnly(m, m1, f, if n == f[i].size then f[i].addr else f[i].addr + n)
    ensures var b := Block(f[i].addr, n);
            var m2 := m1[b.addr := ALLOC_HEADER_CHECKSUM][b.addr + 4 := n];
            HeapOk(m2, first, lo, size, Insert(live, b)) && KeepsBlocks(m, m2, live)
  {
    hide Gaps, Insert, ShrinkAt, Ordered, Chain, Headers, KeepsBlocks, ChangedOnly;
    AllocKeepsChain(m1, lo, lo + size, live, i, n, first);
    AllocKeepsHeaders(m, m1, lo, lo + size, live, i, n);
  }

  lemma Balanced(m: Memory, first: int, lo: int, size: int, live: seq<Block>)
    requires HeapOk(m, first, lo, size, live)
    ensures Total(Gaps(lo, lo + size, live)) == size - Total(live)
  {
    Conservation(lo, lo + size, live);
  }

  /** The step of a run, by the position of the block that serves the request. */
  lemma StepServes(lo: int, hi: int, live: seq<Block>, request: int)
    ensures var f := Gaps(lo, hi, live);
            var i := FirstFit(f, Need(request));
            && Step(lo, hi, live, AllocCall(request)) ==
               (if request == 0 then Some(live)
                else if i == |f| then None
                else Some(Insert(live, Block(f[i].addr, Granted(f[i].size, Need(request))))))
            && Chosen(f, request) ==
               (if i == |f| then None else Some(Block(f[i].addr, Granted(f[i].size, Need(request)))))
  {
    hide Gaps, FirstFit, Insert, Granted, Need;
  }

  /** alloc gave the front of free block k, the header recording its size n. */
  ghost predicate AllocGave(m: Memory, f: seq<Block>, live: seq<Block>, live': seq<Block>, request: int, ptr: int,
                            k: nat, n: int)
  {
    && IsServed(f, Max(ToUint32(request + 8), 12), k, Block(ptr - 8, n))
    && live' == Insert(live, Block(ptr - 8, n)) && Word(m, ptr - 4) == n
  }

  lemma NeedIs(request: int)
    ensures Need(request) == Max(ToUint32(request + 8), 12)
  {
  }

  lemma FirstFitBounds(f: seq<Block>, need: int)
    ensures FirstFit(f, need) == |f| <==> forall j :: 0 <= j < |f| ==> f[j].size < need
  {
  }

  lemma GaveFront(m: Memory, f: seq<Block>, live: seq<Block>, live': seq<Block>, request: int, ptr: int, i: nat)
    requires i == FirstFit(f, Need(request)) && i < |f| && ptr - HEADER_SIZE == f[i].addr
    requires live' == Insert(live, Block(f[i].addr, Granted(f[i].size, Need(request))))
    requires Word(m, ptr - 4) == Granted(f[i].size, Need(request))
    ensures AllocGave(m, f, live, live', request, ptr, i, Granted(f[i].size, Need(request)))
  {
    hide Insert, Granted, LeastUsable;
    GrantedLeast(f[i].size, Need(request), Granted(f[i].size, Need(request)));
  }

  // ---- what the source does where the list ends or is empty

  /** The search loop as written, which tests only the size: does it come to read the null entry? */
  predicate ReadsNull(m: Memory, entry: int, need: int, steps: nat)
    decreases steps
  {
    entry == NULL || (steps > 0 && Word(m, entry + 8) < need && ReadsNull(m, Word(m, entry + 4), need, steps - 1))
  }

  /** It does exactly when no free block is large enough; otherwise it stops where Alloc stops. */
  lemma {:induction false} SearchAsWritten(m: Memory, first: int, f: seq<Block>, need: int, i: nat)
    requires Chain(m, first, f) && i <= |f|
    requires forall j :: 0 <= j < i ==> f[j].size < need
    ensures ReadsNull(m, AddrAt(f, i), need, |f| - i) <==> forall j :: 0 <= j < |f| ==> f[j].size < need
    decreases |f| - i
  {
    if i < |f| {
      assert Linked(m, f, i);
      if f[i].size < need {
        SearchAsWritten(m, first, f, need, i + 1);
      }
    }
  }

  /**
    Freeing into an empty list as written sets only the size of the fresh entry. Its next link is then the
    word that held the block size in the header, so the list does not end after it.
   */
  lemma SoleEntryAsWritten(m: Memory, b: Block)
    requires ENTRY_SIZE <= b.addr && ENTRY_SIZE <= b.size && Word(m, b.addr + 4) == b.size
    ensures var m' := m[b.addr := 0][b.addr + 8 := b.size];
            Word(m', b.addr + 4) == b.size && !Chain(m', b.addr, [b])
  {
    var m' := m[b.addr := 0][b.addr + 8 := b.size];
    assert !Linked(m', [b], 0);
  }

  // ---- release

  /** A block b inside the heap [lo, hi) that meets no block of the free list f. */
  predicate Outstanding(lo: int, hi: int, f: seq<Block>, b: Block) {
    && ENTRY_SIZE <= lo && hi <= TWO_32
    && Separate(lo, hi, f)
    && ENTRY_SIZE <= b.size && lo <= b.addr && b.End() <= hi
    && forall i :: 0 <= i < |f| ==> f[i].End() <= b.addr || b.End() <= f[i].addr
  }

  /** The first n entries of f end below b without touching it. */
  predicate AllBelow(f: seq<Block>, n: nat, b: Block) {
    forall i :: 0 <= i < n && i < |f| ==> f[i].End() < b.addr
  }

  /**
    No distance that free's walk looks at is too far for an int: the first entry, when it lies below b, starts at most
    2 GiB before b ends, and the first entry above b, when nothing touches b from below, starts less than 2 GiB behind.
   */
  predicate InReach(f: seq<Block>, b: Block) {
    && (f != [] && f[0].End() < b.addr ==> b.End() - f[0].addr <= TWO_31)
    && forall j :: 0 <= j < |f| && AllBelow(f, j, b) && b.End() <= f[j].addr ==> f[j].addr - b.End() < TWO_31
  }

  /** A block that free can put back. */
  predicate Returnable(lo: int, hi: int, f: seq<Block>, b: Block) {
    Outstanding(lo, hi, f, b) && InReach(f, b)
  }

  /** In a heap of at most 2 GiB nothing is out of reach. */
  lemma SmallHeapInReach(lo: int, hi: int, f: seq<Block>, b: Block)
    requires Outstanding(lo, hi, f, b) && hi - lo <= TWO_31
    ensures InReach(f, b)
  {
  }

  /** What free does with block b at one entry of the list, both distances narrowed to int. */
  datatype Branch = Overlap | GrowBelow | GrowAbove | PutBefore | PutAfter | WalkOn

  function BranchAt(entry: Block, isLast: bool, b: Block): Branch {
    var topDistance, bottomDistance := ToInt32(entry.addr - b.End()), ToInt32(b.addr - entry.End());
    if -b.size <= topDistance < 0 || -b.size <= bottomDistance < 0 then Overlap
    else if bottomDistance == 0 then GrowBelow
    else if topDistance == 0 then GrowAbove
    else if topDistance > 0 then PutBefore
    else if bottomDistance > 0 && isLast then PutAfter
    else WalkOn
  }

  /**
    A heap of any size: a block below an entry is joined to it or put before it exactly when less than 2 GiB lie
    between them. Otherwise free walks past the entry, and past the last one puts the block behind it.
   */
  lemma BlockBelowEntry(entry: Block, isLast: bool, b: Block)
    requires ENTRY_SIZE <= b.addr && ENTRY_SIZE <= b.size && ENTRY_SIZE <= entry.size
    requires b.End() <= entry.addr && entry.End() <= TWO_32
    ensures BranchAt(entry, isLast, b) ==
            if entry.addr - b.End() >= TWO_31 then if isLast then PutAfter else WalkOn
            else if entry.addr == b.End() then GrowAbove else PutBefore
  {
  }

  /** A block above an entry is joined to it when they touch; otherwise it is put before it when it ends too far away. */
  lemma BlockAboveEntry(entry: Block, isLast: bool, b: Block)
    requires ENTRY_SIZE <= entry.addr && ENTRY_SIZE <= b.size && ENTRY_SIZE <= entry.size
    requires entry.End() <= b.addr && b.End() <= TWO_32
    ensures BranchAt(entry, isLast, b) ==
            if entry.End() == b.addr then GrowBelow
            else if b.End() - entry.addr > TWO_31 then PutBefore
            else if isLast then PutAfter else WalkOn
  {
  }

  /** The list that free's walk leaves, from entry i on; None for a failed assertion. */
  function Walked(f: seq<Block>, b: Block, i: nat): Option<seq<Block>>
    requires i <= |f|
    decreases |f| - i
  {
    if i == |f| then None
    else
      match BranchAt(f[i], i + 1 == |f|, b)
      case Overlap => None
      case GrowBelow => Some(GrownOver(f, b, i))
      case GrowAbove => Some(f[i := Block(b.addr, b.size + f[i].size)])
      case PutBefore => Some(With(f, i, b))
      case PutAfter => Some(With(f, i + 1, b))
      case WalkOn => Walked(f, b, i + 1)
  }

  /** Entries below b, near enough, are walked past, up to the last one. */
  lemma {:induction false} WalkedBelow(lo: int, hi: int, f: seq<Block>, b: Block, i: nat, j: nat)
    requires Outstanding(lo, hi, f, b) && i <= j <= |f| && i < |f|
    requires AllBelow(f, j, b) && b.End() - f[0].addr <= TWO_31
    ensures Walked(f, b, i) == if j < |f| then Walked(f, b, j) else Some(With(f, |f|, b))
    decreases j - i
  {
    if i < j {
      BlockAboveEntry(f[i], i + 1 == |f|, b);
      hide BranchAt, With;
      if i + 1 < |f| {
        WalkedBelow(lo, hi, f, b, i + 1, j);
      }
    }
  }

  /** Entries too far above b are walked past, and b is put behind the last one. */
  lemma {:induction false} WalkedFarAbove(lo: int, hi: int, f: seq<Block>, b: Block, i: nat)
    requires Outstanding(lo, hi, f, b) && i < |f| && f[i].addr - b.End() >= TWO_31
    ensures Walked(f, b, i) == Some(With(f, |f|, b))
    decreases |f| - i
  {
    BlockBelowEntry(f[i], i + 1 == |f|, b);
    hide BranchAt, With;
    if i + 1 < |f| {
      WalkedFarAbove(lo, hi, f, b, i + 1);
    }
  }

  /** The first entry that does not end below b. */
  function PlaceOf(f: seq<Block>, b: Block): (j: nat)
    ensures j <= |f| && AllBelow(f, j, b) && (j < |f| ==> b.addr <= f[j].End())
  {
    if f == [] || b.addr <= f[0].End() then 0
    else
      var j := 1 + PlaceOf(f[1..], b);
      assert forall i :: 1 <= i < j ==> f[i] == f[1..][i - 1];
      j
  }

  /** At the place of b the walk does what Coalesce does, unless the entry there is too far above. */
  lemma WalkedAtPlace(lo: int, hi: int, f: seq<Block>, b: Block, j: nat)
    requires Outstanding(lo, hi, f, b) && j < |f| && AllBelow(f, j, b) && b.addr <= f[j].End()
    ensures Walked(f, b, j) ==
            Some(if f[j].addr - b.End() >= TWO_31 then With(f, |f|, b) else Coalesce(f, b))
  {
    hide Separate, BranchAt, Coalesce, GrownOver, With, Walked;
    if f[j].addr - b.End() >= TWO_31 {
      WalkedFarAbove(lo, hi, f, b, j);
    } else {
      BranchAtPlace(lo, hi, f, b, j);
      WalkedHere(f, b, j);
      if f[j].End() == b.addr {
        CoalesceBelow(f, b, j);
      } else {
        CoalesceAbove(f, b, j);
      }
    }
  }

  lemma BranchAtPlace(lo: int, hi: int, f: seq<Block>, b: Block, j: nat)
    requires Outstanding(lo, hi, f, b) && j < |f| && b.addr <= f[j].End() && f[j].addr - b.End() < TWO_31
    ensures f[j].End() == b.addr || b.End() <= f[j].addr
    ensures BranchAt(f[j], j + 1 == |f|, b) ==
            if f[j].End() == b.addr then GrowBelow else if f[j].addr == b.End() then GrowAbove else PutBefore
  {
    hide BranchAt;
    if f[j].End() == b.addr {
      BlockAboveEntry(f[j], j + 1 == |f|, b);
    } else {
      BlockBelowEntry(f[j], j + 1 == |f|, b);
    }
  }

  lemma WalkedHere(f: seq<Block>, b: Block, i: nat)
    requires i < |f|
    ensures BranchAt(f[i], i + 1 == |f|, b) == GrowBelow ==> Walked(f, b, i) == Some(GrownOver(f, b, i))
    ensures BranchAt(f[i], i + 1 == |f|, b) == GrowAbove ==>
              Walked(f, b, i) == Some(f[i := Block(b.addr, b.size + f[i].size)])
    ensures BranchAt(f[i], i + 1 == |f|, b) == PutBefore ==> Walked(f, b, i) == Some(With(f, i, b))
  {
    hide BranchAt, GrownOver, With;
  }

  /** InReach at the place of b alone. */
  lemma ReachAtPlace(lo: int, hi: int, f: seq<Block>, b: Block, j: nat)
    requires Outstanding(lo, hi, f, b) && j <= |f| && AllBelow(f, j, b) && (j < |f| ==> b.addr <= f[j].End())
    ensures InReach(f, b) <==>
            && (j > 0 ==> b.End() - f[0].addr <= TWO_31)
            && (j < |f| ==> f[j].addr - b.End() < TWO_31)
  {
    assert j > 0 <==> f != [] && f[0].End() < b.addr;
    assert forall k :: j < k < |f| ==> !AllBelow(f, k, b);
    assert forall k :: 0 <= k < j ==> f[k].addr < b.End();
  }

  lemma CoalescedSeparate(lo: int, hi: int, f: seq<Block>, b: Block, j: nat)
    requires Outstanding(lo, hi, f, b) && j <= |f| && AllBelow(f, j, b) && (j < |f| ==> b.addr <= f[j].End())
    ensures Separate(lo, hi, Coalesce(f, b))
  {
    hide Coalesce, GrownOver, With, Separate;
    if j < |f| && f[j].End() == b.addr {
      CoalesceBelow(f, b, j);
      GrownSeparate(lo, hi, f, b, j);
    } else {
      CoalesceAbove(f, b, j);
      PutSeparate(lo, hi, f, b, j);
    }
  }

  /** An entry replaced by a block that keeps clear of all the others. */
  lemma ReplacedSeparate(lo: int, hi: int, f: seq<Block>, j: nat, c: Block)
    requires Separate(lo, hi, f) && j < |f|
    requires ENTRY_SIZE <= c.size && lo <= c.addr && c.End() <= hi
    requires forall k :: 0 <= k < j ==> f[k].End() < c.addr
    requires forall k :: j < k < |f| ==> c.End() < f[k].addr
    ensures Separate(lo, hi, f[j := c])
  {
    var g := f[j := c];
    assert forall k :: 0 <= k < |g| && k != j ==> g[k] == f[k];
  }

  lemma RemoveSeparate(lo: int, hi: int, f: seq<Block>, j: nat)
    requires Separate(lo, hi, f) && j < |f|
    ensures Separate(lo, hi, Remove(f, j)) && |Remove(f, j)| == |f| - 1
    ensures forall k :: 0 <= k < |f| - 1 ==> Remove(f, j)[k] == if k < j then f[k] else f[k + 1]
  {
    var g := Remove(f, j);
    assert forall k :: 0 <= k < |g| ==> g[k] == if k < j then f[k] else f[k + 1];
  }

  /** Where the entries lie around one that touches b from below. */
  lemma AroundTouching(lo: int, hi: int, f: seq<Block>, b: Block, j: nat)
    requires Outstanding(lo, hi, f, b) && j < |f| && f[j].End() == b.addr
    ensures forall k :: 0 <= k < j ==> f[k].End() < f[j].addr
    ensures forall k :: j + 1 < k < |f| ==> f[j + 1].End() < f[k].addr
    ensures forall k :: j + 1 < k < |f| ==> b.End() < f[k].addr
    ensures j + 1 < |f| ==> b.End() <= f[j + 1].addr && ENTRY_SIZE <= f[j + 1].size && f[j + 1].End() <= hi
    ensures lo <= f[j].addr && ENTRY_SIZE <= f[j].size && ENTRY_SIZE <= b.size && b.End() <= hi
    ensures Separate(lo, hi, f)
  {
  }

  lemma GrownSeparate(lo: int, hi: int, f: seq<Block>, b: Block, j: nat)
    requires Outstanding(lo, hi, f, b) && j < |f| && f[j].End() == b.addr
    ensures Separate(lo, hi, GrownOver(f, b, j))
  {
    AroundTouching(lo, hi, f, b, j);
    hide Outstanding, Separate;
    if j + 1 < |f| && f[j + 1].addr == b.End() {
      GrownBothSeparate(lo, hi, f, b, j);
    } else {
      assert GrownOver(f, b, j) == f[j := Block(f[j].addr, f[j].size + b.size)];
      hide GrownOver;
      ReplacedSeparate(lo, hi, f, j, Block(f[j].addr, f[j].size + b.size));
    }
  }

  lemma GrownBothSeparate(lo: int, hi: int, f: seq<Block>, b: Block, j: nat)
    requires Outstanding(lo, hi, f, b) && j + 1 < |f| && f[j].End() == b.addr && f[j + 1].addr == b.End()
    ensures Separate(lo, hi, GrownOver(f, b, j))
  {
    var h := Remove(f, j + 1);
    AroundTouching(lo, hi, f, b, j);
    GrownTwice(f, b, j);
    hide Outstanding, Separate, GrownOver, Remove;
    RemoveSeparate(lo, hi, f, j + 1);
    ReplacedSeparate(lo, hi, h, j, Block(f[j].addr, f[j].size + b.size + f[j + 1].size));
  }

  lemma GrownTwice(f: seq<Block>, b: Block, j: nat)
    requires j + 1 < |f| && f[j].End() == b.addr && f[j + 1].addr == b.End()
    ensures GrownOver(f, b, j) == Remove(f, j + 1)[j := Block(f[j].addr, f[j].size + b.size + f[j + 1].size)]
  {
  }

  lemma PutSeparate(lo: int, hi: int, f: seq<Block>, b: Block, j: nat)
    requires Outstanding(lo, hi, f, b) && j <= |f| && AllBelow(f, j, b) && (j < |f| ==> b.addr < f[j].End())
    ensures Separate(lo, hi, if j < |f| && f[j].addr == b.End() then f[j := Block(b.addr, b.size + f[j].size)]
                             else With(f, j, b))
  {
    if j < |f| && f[j].addr == b.End() {
      ReplacedSeparate(lo, hi, f, j, Block(b.addr, b.size + f[j].size));
    } else {
      var g := With(f, j, b);
      assert forall k :: 0 <= k < |g| ==> g[k] == if k < j then f[k] else if k == j then b else f[k - 1];
    }
  }

  /** A block above b in front of it, or a block below b behind it, is out of order. */
  lemma PutOutOfOrder(lo: int, hi: int, f: seq<Block>, b: Block, i: nat, k: nat)
    requires Outstanding(lo, hi, f, b) && i <= |f| && k < |f|
    requires if k < i then b.addr < f[k].End() else f[k].addr < b.End()
    ensures !Separate(lo, hi, With(f, i, b))
  {
    var g := With(f, i, b);
    assert g[i] == b && g[if k < i then k else k + 1] == f[k];
  }

  /** The list stays in address order, and is then the coalesced one, exactly when b is in reach. */
  lemma WalkExact(lo: int, hi: int, f: seq<Block>, b: Block)
    requires Outstanding(lo, hi, f, b) && f != []
    ensures Walked(f, b, 0).Some?
    ensures Walked(f, b, 0) == Some(Coalesce(f, b)) <==> InReach(f, b)
    ensures Separate(lo, hi, Walked(f, b, 0).value) <==> InReach(f, b)
  {
    var j := PlaceOf(f, b);
    ReachAtPlace(lo, hi, f, b, j);
    CoalescedSeparate(lo, hi, f, b, j);
    if j > 0 && b.End() - f[0].addr > TWO_31 {
      BlockAboveEntry(f[0], 1 == |f|, b);
      PutOutOfOrder(lo, hi, f, b, 0, 0);
    } else {
      if j > 0 {
        WalkedBelow(lo, hi, f, b, 0, j);
      }
      hide Walked, Coalesce, With, InReach, Separate;
      if j == |f| {
        CoalesceAbove(f, b, j);
      } else {
        WalkedAtPlace(lo, hi, f, b, j);
        if f[j].addr - b.End() >= TWO_31 {
          PutOutOfOrder(lo, hi, f, b, |f|, j);
        }
      }
    }
  }

  /** A block freed far above the only entry is put in front of it, one freed far below it is put behind it. */
  lemma OrderLost()
    ensures var low, high := Block(0x1000, 64), Block(0xA000_0000, 64);
            && Walked([low], high, 0) == Some([high, low])
            && Walked([high], low, 0) == Some([high, low])
  {
    var low, high := Block(0x1000, 64), Block(0xA000_0000, 64);
    BlockAboveEntry(low, true, high);
    BlockBelowEntry(high, true, low);
    assert With([low], 0, high) == [high, low] && With([high], 1, low) == [high, low];
  }

  /** For a block in reach the narrowing of both distances to int does no harm. */
  lemma Distances(lo: int, hi: int, f: seq<Block>, b: Block, i: nat)
    requires Returnable(lo, hi, f, b) && i < |f| && AllBelow(f, i, b)
    ensures ENTRY_SIZE <= b.size && ENTRY_SIZE <= f[i].size
    ensures var top, bottom := ToInt32(f[i].addr - b.End()), ToInt32(b.addr - f[i].End());
            && !(-b.size <= top < 0) && !(-b.size <= bottom < 0)
            && (bottom == 0 <==> f[i].End() == b.addr)
            && (bottom != 0 ==> (top >= 0 <==> b.End() <= f[i].addr))
            && (bottom != 0 && top >= 0 ==> top == f[i].addr - b.End())
            && (bottom != 0 && top < 0 ==> bottom > 0 && f[i].End() < b.addr)
  {
  }

  lemma EntryInside(lo: int, hi: int, f: seq<Block>, b: Block, i: int)
    requires Returnable(lo, hi, f, b)
    ensures AddrAt(f, i) == NULL || lo <= AddrAt(f, i) < hi
  {
  }

  lemma OffReturned(lo: int, hi: int, f: seq<Block>, b: Block, i: nat)
    requires Returnable(lo, hi, f, b) && i < |f| && f[i].End() == b.addr
    ensures OffList(f, b.addr) && f[i].addr + ENTRY_SIZE <= b.addr
  {
  }

  lemma SpacedInsert(lo: int, hi: int, f: seq<Block>, b: Block, i: nat)
    requires Returnable(lo, hi, f, b) && i <= |f|
    requires forall j :: 0 <= j < i ==> f[j].End() < b.addr
    requires i < |f| ==> b.End() <= f[i].addr
    ensures Spaced(With(f, i, b))
  {
    hide InReach;
    var g := With(f, i, b);
    assert forall j :: 0 <= j < |g| ==> g[j] == if j < i then f[j] else if j == i then b else f[j - 1];
  }

  lemma SpacedGrow(lo: int, hi: int, f: seq<Block>, b: Block, i: nat)
    requires Returnable(lo, hi, f, b) && i < |f|
    requires forall j :: 0 <= j < i ==> f[j].End() < b.addr
    requires b.End() == f[i].addr
    ensures Spaced(f[i := Block(b.addr, b.size + f[i].size)])
  {
    var g := f[i := Block(b.addr, b.size + f[i].size)];
    assert forall j :: 0 <= j < |g| && j != i ==> g[j] == f[j];
  }

  lemma FreeFacts(m: Memory, first: int, lo: int, size: int, live: seq<Block>, p: nat, f: seq<Block>)
    requires HeapOk(m, first, lo, size, live) && f == Gaps(lo, lo + size, live) && p < |live|
    ensures Outstanding(lo, lo + size, f, live[p]) && ENTRY_SIZE <= live[p].addr
    ensures Word(m, live[p].addr) == ALLOC_HEADER_CHECKSUM && Word(m, live[p].addr + 4) == live[p].size
    ensures Chain(m[live[p].addr := 0], first, f)
  {
    hide Gaps;
    OrderedBounds(lo, lo + size, live);
    GapsShape(lo, lo + size, live);
    GapsMissLive(lo, lo + size, live);
    ChainKept(m, m[live[p].addr := 0], first, f);
  }

  /** In a heap of at most 2 GiB every live block can be freed. */
  lemma SmallHeapFrees(m: Memory, first: int, lo: int, size: int, live: seq<Block>)
    requires HeapOk(m, first, lo, size, live) && size <= TWO_31
    ensures forall p :: 0 <= p < |live| ==> InReach(Gaps(lo, lo + size, live), live[p])
  {
    var f := Gaps(lo, lo + size, live);
    forall p | 0 <= p < |live| ensures InReach(f, live[p]) {
      FreeFacts(m, first, lo, size, live, p, f);
      hide HeapOk, Gaps, Outstanding, InReach;
      SmallHeapInReach(lo, lo + size, f, live[p]);
    }
  }

  lemma LiveHasHeader(m: Memory, first: int, lo: int, size: int, live: seq<Block>, p: nat)
    requires HeapOk(m, first, lo, size, live) && p <= |live|
    ensures p < |live| ==> HasHeader(m, live[p].addr)
  {
    if p < |live| {
      OrderedBounds(lo, lo + size, live);
      assert live[p] in live;
    }
  }

  lemma FreeOk(m: Memory, m': Memory, first: int, first': int, lo: int, size: int, live: seq<Block>, p: nat, f: seq<Block>)
    requires HeapOk(m, first, lo, size, live) && f == Gaps(lo, lo + size, live) && p < |live|
    requires Chain(m', first', Coalesce(f, live[p]))
    requires ChangedOnly(m[live[p].addr := 0], m', f, live[p].addr)
    ensures HeapOk(m', first', lo, size, Remove(live, p))
    ensures KeepsBlocks(m, m', Remove(live, p))
  {
    hide Gaps, Ordered, Coalesce, Chain, Remove;
    RemoveGaps(lo, lo + size, live, p);
    forall x | x in Remove(live, p)
      ensures x in live && x.size >= ENTRY_SIZE && forall a :: x.HoldsWord(a) ==> Word(m', a) == Word(m, a)
    {
      RemoveMembers(lo, lo + size, live, p, x);
      LiveUntouched(m[live[p].addr := 0], m', lo, lo + size, live, live[p].addr, x);
    }
    forall x | x in Remove(live, p)
      ensures Word(m', x.addr) == Word(m, x.addr) && Word(m', x.addr + 4) == Word(m, x.addr + 4)
    {
      assert x.HoldsWord(x.addr) && x.HoldsWord(x.addr + 4);
    }
  }

  class Heap {
    var mem: Memory
    var first: int
    var heapSize: int
    ghost var base: int
    ghost var live: seq<Block>

    ghost function FreeBlocks(): seq<Block>
      reads this
    {
      Gaps(base, base + heapSize, live)
    }

    ghost predicate Valid()
      reads this
    {
      HeapOk(mem, first, base, heapSize, live)
    }

    constructor (memory: Memory, location: int, size: int)
      requires ENTRY_SIZE <= location && ENTRY_SIZE <= size && location + size <= TWO_32
      ensures Valid()
      ensures base == location && heapSize == size && live == []
      ensures FreeBlocks() == [Block(location, size)]
    {
      mem := memory[location + 8 := size][location := NULL][location + 4 := NULL];
      first := location;
      heapSize := size;
      base := location;
      live := [];
    }

    method ListRemove(entry: int, ghost f: seq<Block>, ghost i: nat)
      requires i < |f| && entry == f[i].addr
      requires Chain(mem, first, f)
      modifies `mem, `first
      ensures Chain(mem, first, Remove(f, i))
      ensures ChangedOnly(old(mem), mem, f, entry)
    {
      assert Linked(mem, f, i);
      UnlinkChain(mem, first, f, i);
      if first == entry {
        first := Word(mem, entry + 4);
      }
      mem := mem[Word(mem, entry) + 4 := Word(mem, entry + 4)];
      mem := mem[Word(mem, entry + 4) := Word(mem, entry)];
      mem := mem[entry + 8 := 0];
    }

    method ListShrink(block: int, amount: int, ghost f: seq<Block>, ghost i: nat) returns (granted: int)
      requires i < |f| && block == f[i].addr
      requires Chain(mem, first, f)
      requires ENTRY_SIZE <= amount <= f[i].size
      requires i + 1 < |f| ==> f[i].End() <= f[i + 1].addr
      modifies `mem, `first
      ensures granted == Granted(f[i].size, amount) && LeastUsable(granted, amount, f[i].size)
      ensures Chain(mem, first, ShrinkAt(f, i, granted))
      ensures ChangedOnly(old(mem), mem, f, if granted == f[i].size then block else block + granted)
    {
      assert Linked(mem, f, i);
      GrantedLeast(f[i].size, amount, Granted(f[i].size, amount));
      hide LeastUsable;
      var left := Word(mem, block + 8) - amount;
      if left < ENTRY_SIZE {
        var blockSize := Word(mem, block + 8);
        ListRemove(block, f, i);
        assert ShrinkAt(f, i, blockSize) == Remove(f, i);
        return blockSize;
      }
      var newPlace := block + amount;
      ghost var g := f[i := Block(newPlace, left)];
      assert Spaced(g) by {
        assert forall j :: 0 <= j < |f| && j != i ==> g[j] == f[j];
      }
      MoveChain(mem, first, f, i, newPlace, left);
      assert i > 0 ==> f[i - 1].addr + ENTRY_SIZE <= f[i].addr;
      mem := mem[newPlace := Word(mem, block)][newPlace + 4 := Word(mem, block + 4)][newPlace + 8 := left];
      assert Word(mem, newPlace) == AddrAt(f, i - 1) && Word(mem, newPlace + 4) == AddrAt(f, i + 1);
      assert AddrAt(f, i - 1) + 4 != newPlace + 4;
      mem := mem[Word(mem, newPlace) + 4 := newPlace];
      mem := mem[Word(mem, newPlace + 4) := newPlace];
      assert mem == Move(old(mem), f, i, newPlace, left);
      if block == first {
        first := newPlace;
      }
      assert ShrinkAt(f, i, amount) == g;
      return amount;
    }

    method ListGrowUp(entry: int, amount: int, ghost f: seq<Block>, ghost i: nat)
      requires i < |f| && entry == f[i].addr
      requires Chain(mem, first, f)
      requires ENTRY_SIZE <= amount
      requires Spaced(f[i := Block(entry - amount, f[i].size + amount)])
      modifies `mem, `first
      ensures Chain(mem, first, f[i := Block(entry - amount, f[i].size + amount)])
      ensures ChangedOnly(old(mem), mem, f, entry - amount)
    {
      assert Linked(mem, f, i);
      var newPlace := entry - amount;
      MoveChain(mem, first, f, i, newPlace, f[i].size + amount);
      ghost var g := f[i := Block(newPlace, f[i].size + amount)];
      assert i > 0 ==> g[i - 1].addr + ENTRY_SIZE <= g[i].addr;
      mem := mem[newPlace := Word(mem, entry)][newPlace + 4 := Word(mem, entry + 4)]
                [newPlace + 8 := Word(mem, entry + 8) + amount];
      assert Word(mem, newPlace) == AddrAt(f, i - 1) && Word(mem, newPlace + 4) == AddrAt(f, i + 1);
      mem := mem[Word(mem, newPlace) + 4 := newPlace];
      mem := mem[Word(mem, newPlace + 4) := newPlace];
      assert mem == Move(old(mem), f, i, newPlace, f[i].size + amount);
      if entry == first {
        first := newPlace;
      }
    }

    method ListInsertBefore(target: int, address: int, size: int, ghost f: seq<Block>, ghost i: nat)
      requires i < |f| && target == f[i].addr
      requires Chain(mem, first, f)
      requires Spaced(With(f, i, Block(address, size)))
      modifies `mem, `first
      ensures Chain(mem, first, With(f, i, Block(address, size)))
      ensures ChangedOnly(old(mem), mem, f, address)
    {
      hide Chain, With, ChangedOnly, Spaced;
      ChainLink(mem, first, f, i);
      EntriesApart(mem, first, f, i);
      SpacedAround(f, i, Block(address, size));
      mem := mem[address + 8 := size];
      if first == target {
        first := address;
      } else {
        mem := mem[Word(mem, target) + 4 := address];
      }
      mem := mem[address := Word(mem, target)];
      mem := mem[address + 4 := target];
      mem := mem[target := address];
      InsertedChain(old(mem), mem, old(first), f, i, Block(address, size));
    }

    method ListInsertAfter(target: int, address: int, size: int, ghost f: seq<Block>, ghost i: nat)
      requires i < |f| && target == f[i].addr
      requires Chain(mem, first, f)
      requires Spaced(With(f, i + 1, Block(address, size)))
      modifies `mem, `first
      ensures Chain(mem, first, With(f, i + 1, Block(address, size)))
      ensures ChangedOnly(old(mem), mem, f, address)
    {
      hide Chain, With, ChangedOnly, Spaced;
      ChainLink(mem, first, f, i);
      EntriesApart(mem, first, f, i);
      SpacedAround(f, i + 1, Block(address, size));
      mem := mem[address + 8 := size];
      if Word(mem, target + 4) != NULL {
        mem := mem[Word(mem, target + 4) := address];
      }
      mem := mem[address := target];
      mem := mem[address + 4 := Word(mem, target + 4)];
      mem := mem[target + 4 := address];
      InsertedChain(old(mem), mem, old(first), f, i + 1, Block(address, size));
    }

    /** The search loop of alloc. */
    method FindFit(size: int, ghost f: seq<Block>) returns (suitable: int)
      requires Chain(mem, first, f)
      ensures FirstFit(f, size) <= |f| && suitable == AddrAt(f, FirstFit(f, size))
      ensures FirstFit(f, size) < |f| <==> suitable != NULL
      ensures suitable != NULL ==> suitable == f[FirstFit(f, size)].addr && size <= f[FirstFit(f, size)].size
    {
      hide Chain, FirstFit;
      suitable := first;
      ghost var i := 0;
      ChainLink(mem, first, f, 0);
      while suitable != NULL && Word(mem, suitable + 8) < size
        invariant i <= |f| && suitable == AddrAt(f, i)
        invariant forall j :: 0 <= j < i ==> f[j].size < size
        invariant Chain(mem, first, f)
        decreases |f| - i
      {
        ChainLink(mem, first, f, i);
        suitable := Word(mem, suitable + 4);
        i := i + 1;
      }
      ChainLink(mem, first, f, i);
      FirstFitIs(f, size, i);
    }

    /** alloc: the lowest free block that fits, its front given away, or a panic when none fits. */
    method Alloc(request: int) returns (r: Outcome<int>)
      requires Valid()
      requires 0 <= request < TWO_32
      modifies `mem, `first, `live
      ensures Valid()
      ensures Step(base, base + heapSize, old(live), AllocCall(request)) == if r.Ok? then Some(live) else None
      ensures request != 0 && r.Ok? ==>
                && Chosen(old(FreeBlocks()), request).Some?
                && r.value == Chosen(old(FreeBlocks()), request).value.addr + HEADER_SIZE
      ensures request != 0 && r.Ok? ==>
                exists k: nat, n :: AllocGave(mem, old(FreeBlocks()), old(live), live, request, r.value, k, n)
      ensures r.Panic? <==>
                request != 0 && forall j :: 0 <= j < |old(FreeBlocks())| ==>
                                  old(FreeBlocks())[j].size < Max(ToUint32(request + 8), 12)
      ensures request == 0 ==> r == Ok(NULL)
      ensures request == 0 || r.Panic? ==> live == old(live) && mem == old(mem) && first == old(first)
      ensures KeepsBlocks(old(mem), mem, old(live))
    {
      hide Gaps, FirstFit, Insert, HeapOk, KeepsBlocks, Step, Chosen, Granted, Need;
      StepServes(base, base + heapSize, live, request);
      KeepsAll(mem, live);
      if request == 0 {
        return Ok(NULL);
      }
      hide *;
      ghost var f := FreeBlocks();
      HeapFacts(mem, first, base, heapSize, live, f);
      var size := NeedOf(request);
      ghost var i := FirstFit(f, size);
      var suitable := FindFit(size, f);
      NeedIs(request);
      FirstFitBounds(f, size);
      if suitable == NULL {
        return Panic;
      }
      var addr := TakeFront(suitable, size, f, i);
      GaveFront(mem, f, old(live), live, request, addr, i);
      return Ok(addr);
    }

    /** The size that alloc looks for. */
    method NeedOf(request: int) returns (size: int)
      requires 0 <= request < TWO_32
      ensures size == Need(request) >= ENTRY_SIZE
    {
      size := ToUint32(request + HEADER_SIZE);
      size := Max(size, ENTRY_SIZE);
    }

    /** alloc once a suitable block is found: shrink it and write the header. */
    method TakeFront(suitable: int, size: int, ghost f: seq<Block>, ghost i: nat) returns (ptr: int)
      requires Valid() && f == FreeBlocks()
      requires i < |f| && suitable == f[i].addr && ENTRY_SIZE <= size <= f[i].size
      modifies `mem, `first, `live
      ensures Valid()
      ensures ptr == suitable + HEADER_SIZE
      ensures live == Insert(old(live), Block(suitable, Granted(f[i].size, size)))
      ensures Word(mem, ptr - 4) == Granted(f[i].size, size)
      ensures KeepsBlocks(old(mem), mem, old(live))
    {
      hide HeapOk, Gaps, Insert, ShrinkAt, Chain, KeepsBlocks, ChangedOnly, Separate;
      HeapFacts(mem, first, base, heapSize, live, f);
      SeparateAt(base, base + heapSize, f, i);
      var addr := suitable;
      var granted := ListShrink(suitable, size, f, i);
      AllocOk(old(mem), mem, old(first), first, base, heapSize, live, f, i, granted);
      mem := mem[addr := ALLOC_HEADER_CHECKSUM];
      mem := mem[addr + 4 := granted];
      live := Insert(live, Block(addr, granted));
      return addr + HEADER_SIZE;
    }

    /** The entry below the freed block takes it over, and the entry above too when it is reached. */
    method ExtendOver(entry: int, size: int, ghost f: seq<Block>, ghost i: nat, ghost b: Block)
      requires i < |f| && entry == f[i].addr && f[i].End() == b.addr && size == b.size
      requires Chain(mem, first, f)
      requires forall j :: 0 <= j < i ==> f[j].End() < b.addr
      requires OffList(f, b.addr) && f[i].addr + ENTRY_SIZE <= b.addr
      modifies `mem, `first
      ensures Chain(mem, first, Coalesce(f, b))
      ensures ChangedOnly(old(mem), mem, f, b.addr)
      ensures Word(mem, b.addr) == old(Word(mem, b.addr))
    {
      hide Chain, Coalesce, ChangedOnly;
      ChainLink(mem, first, f, i);
      CoalesceBelow(f, b, i);
      ghost var g := f[i := Block(f[i].addr, f[i].size + b.size)];
      ResizeChain(mem, first, f, i, f[i].size + b.size, b.addr);
      mem := mem[entry + 8 := Word(mem, entry + 8) + size];
      ChainLink(mem, first, g, i);
      if i + 1 < |f| {
        ChainLink(mem, first, g, i + 1);
      }
      if Word(mem, entry + 4) != NULL && Word(mem, entry + 4) - (entry + Word(mem, entry + 8)) == 0 {
        ghost var m1 := mem;
        JoinNext(entry, g, i);
        Unchanged(m1, mem, g, g[i + 1].addr, b.addr);
        ChangedInList(m1, mem, g, i + 1, b.addr);
        ChangedTwice(old(mem), m1, mem, f, g, b.addr);
      }
    }

    /** An entry that reaches the next one takes it over. */
    method JoinNext(entry: int, ghost g: seq<Block>, ghost i: nat)
      requires i + 1 < |g| && entry == g[i].addr
      requires Chain(mem, first, g)
      modifies `mem, `first
      ensures Chain(mem, first, Remove(g[i := Block(entry, g[i].size + g[i + 1].size)], i + 1))
      ensures ChangedOnly(old(mem), mem, g, g[i + 1].addr)
    {
      hide Chain, ChangedOnly, Remove;
      ChainLink(mem, first, g, i);
      ChainLink(mem, first, g, i + 1);
      ResizeChain(mem, first, g, i, g[i].size + g[i + 1].size, g[i + 1].addr);
      ghost var h := g[i := Block(entry, g[i].size + g[i + 1].size)];
      mem := mem[entry + 8 := Word(mem, entry + 8) + Word(mem, Word(mem, entry + 4) + 8)];
      ghost var m1 := mem;
      ChainLink(mem, first, h, i);
      ListRemove(Word(mem, entry + 4), h, i + 1);
      ChangedTwice(old(mem), m1, mem, g, h, g[i + 1].addr);
    }

    /** The walk of free over a non-empty list. */
    method Reclaim(addr: int, ghost lo: int, ghost hi: int, ghost f: seq<Block>, ghost b: Block)
      requires Chain(mem, first, f) && f != []
      requires Returnable(lo, hi, f, b) && addr == b.addr && Word(mem, addr + 4) == b.size
      modifies `mem, `first
      ensures Chain(mem, first, Coalesce(f, b))
      ensures ChangedOnly(old(mem), mem, f, addr)
      ensures Word(mem, addr) in {old(Word(mem, addr)), NULL} || lo <= Word(mem, addr) < hi
    {
      hide Chain, Coalesce, ChangedOnly, Returnable, With;
      var entry := first;
      ghost var i := 0;
      ChainLink(mem, first, f, i);
      while entry != NULL
        invariant i < |f| && entry == f[i].addr && entry != NULL
        invariant forall j :: 0 <= j < i ==> f[j].End() < addr
        invariant mem == old(mem) && first == old(first)
        decreases |f| - i
      {
        ChainLink(mem, first, f, i);
        ChainLink(mem, first, f, i + 1);
        Distances(lo, hi, f, b, i);
        var size := Word(mem, addr + 4);
        var topDistance := ToInt32(entry - (addr + size));
        var bottomDistance := ToInt32(addr - (entry + Word(mem, entry + 8)));
        assert !(topDistance < 0 && topDistance >= -size);
        assert !(bottomDistance < 0 && bottomDistance >= -size);

        if bottomDistance == 0 {
          OffReturned(lo, hi, f, b, i);
          ExtendOver(entry, size, f, i, b);
          break;
        }
        if topDistance >= 0 {
          ReclaimAbove(entry, addr, topDistance, size, lo, hi, f, b, i);
          EntryInside(lo, hi, f, b, i - 1);
          break;
        }
        if bottomDistance > 0 && Word(mem, entry + 4) == NULL {
          SpacedInsert(lo, hi, f, b, i + 1);
          CoalesceAbove(f, b, i + 1);
          ListInsertAfter(entry, addr, size, f, i);
          WithAddrAt(f, i + 1, b);
          ChainLink(mem, first, With(f, i + 1, b), i + 1);
          EntryInside(lo, hi, f, b, i);
          break;
        }
        entry := Word(mem, entry + 4);
        i := i + 1;
        ChainLink(mem, first, f, i);
      }
      assert entry != NULL;
    }

    method ReclaimAbove(entry: int, addr: int, topDistance: int, size: int, ghost lo: int, ghost hi: int,
                        ghost f: seq<Block>, ghost b: Block, ghost i: nat)
      requires Chain(mem, first, f) && i < |f| && entry == f[i].addr
      requires Returnable(lo, hi, f, b) && addr == b.addr && size == b.size && topDistance == entry - b.End() >= 0
      requires forall j :: 0 <= j < i ==> f[j].End() < b.addr
      modifies `mem, `first
      ensures Chain(mem, first, Coalesce(f, b))
      ensures ChangedOnly(old(mem), mem, f, b.addr)
      ensures Word(mem, addr) == AddrAt(f, i - 1)
    {
      hide Chain, Coalesce, ChangedOnly, Returnable, With;
      Distances(lo, hi, f, b, i);
      CoalesceAbove(f, b, i);
      if topDistance == 0 {
        SpacedGrow(lo, hi, f, b, i);
        ListGrowUp(entry, size, f, i);
        ChainLink(mem, first, f[i := Block(addr, f[i].size + size)], i);
      } else {
        SpacedInsert(lo, hi, f, b, i);
        ListInsertBefore(entry, addr, size, f, i);
        WithAddrAt(f, i, b);
        ChainLink(mem, first, With(f, i, b), i);
      }
    }

    /**
      free: the block in front of ptr leaves and nothing else changes; a pointer without a header panics.
      Right after the call the same pointer has no header, so a second free of it panics, unless the heap
      reaches the address that equals the checksum.
     */
    method Free(ptr: int) returns (r: Outcome<()>)
      requires Valid()
      requires LiveAt(live, ptr - HEADER_SIZE) || !HasHeader(mem, ptr - HEADER_SIZE)
      requires LiveAt(live, ptr - HEADER_SIZE) ==> InReach(FreeBlocks(), live[Find(live, ptr - HEADER_SIZE)])
      modifies `mem, `first, `live
      ensures Valid()
      ensures LiveAt(old(live), ptr - HEADER_SIZE) <==> r.Ok?
      ensures r.Panic? ==> live == old(live) && mem == old(mem) && first == old(first)
      ensures r.Ok? ==> live == RemoveAt(old(live), ptr - HEADER_SIZE)
      ensures Step(base, base + heapSize, old(live), FreeCall(ptr)) == if r.Ok? then Some(live) else None
      ensures r.Ok? && !(base <= ALLOC_HEADER_CHECKSUM < base + heapSize) ==> !HasHeader(mem, ptr - HEADER_SIZE)
      ensures KeepsBlocks(old(mem), mem, live)
    {
      hide HeapOk, Gaps, Coalesce, Chain, Remove, ChangedOnly, KeepsBlocks, Find;
      var addr := ptr - HEADER_SIZE;
      ghost var p := Find(live, addr);
      LiveHasHeader(mem, first, base, heapSize, live, p);
      if Word(mem, addr) != ALLOC_HEADER_CHECKSUM || Word(mem, addr + 4) <= HEADER_SIZE {
        KeepsAll(mem, live);
        return Panic;
      }
      Release(addr, p);
      return Ok(());
    }

    /** free past its header check. */
    method Release(addr: int, ghost p: nat)
      requires Valid() && p < |live| && live[p].addr == addr
      requires InReach(FreeBlocks(), live[p])
      modifies `mem, `first, `live
      ensures Valid()
      ensures live == Remove(old(live), p)
      ensures !(base <= ALLOC_HEADER_CHECKSUM < base + heapSize) ==> Word(mem, addr) != ALLOC_HEADER_CHECKSUM
      ensures KeepsBlocks(old(mem), mem, live)
    {
      hide HeapOk, Gaps, Coalesce, Chain, Remove, ChangedOnly, KeepsBlocks, Outstanding, InReach;
      ghost var f, b := Gaps(base, base + heapSize, live), live[p];
      FreeFacts(mem, first, base, heapSize, live, p, f);
      mem := mem[addr := 0];
      ChainLink(mem, first, f, 0);
      if first == NULL {
        BecomeSole(addr, b);
      } else {
        Reclaim(addr, base, base + heapSize, f, b);
      }
      FreeOk(old(mem), mem, old(first), first, base, heapSize, live, p, f);
      live := Remove(live, p);
    }

    /** free into an empty list, the fresh entry given null links as init gives them. */
    method BecomeSole(addr: int, ghost b: Block)
      requires Chain(mem, first, []) && ENTRY_SIZE <= addr == b.addr && Word(mem, addr + 4) == b.size
      modifies `mem, `first
      ensures Chain(mem, first, Coalesce([], b))
      ensures ChangedOnly(old(mem), mem, [], addr)
      ensures Word(mem, addr) == NULL
    {
      mem := mem[addr + 8 := Word(mem, addr + 4)];
      mem := mem[addr := NULL][addr + 4 := NULL];
      first := addr;
    }

    /** get_unused; the source reads the first entry without a check, so the list must not be empty. */
    method GetUnused() returns (counter: int)
      requires Valid() && first != NULL
      ensures counter == Total(FreeBlocks())
      ensures counter == heapSize - Total(live)
    {
      hide HeapOk, Gaps, Chain, Separate;
      ghost var f, i := FreeBlocks(), 0;
      HeapFacts(mem, first, base, heapSize, live, f);
      Balanced(mem, first, base, heapSize, live);
      ChainLink(mem, first, f, 0);
      counter := 0;
      var entry := first;
      while true
        invariant i < |f| && entry == f[i].addr && counter == Total(f[..i])
        invariant Chain(mem, first, f)
        decreases |f| - i
      {
        ChainLink(mem, first, f, i);
        TotalStep(f, i);
        counter := counter + Word(mem, entry + 8);
        entry := Word(mem, entry + 4);
        i := i + 1;
        ChainLink(mem, first, f, i);
        if entry == NULL {
          break;
        }
      }
      assert f[..i] == f;
    }
  }
}
