/**
  Whole runs of the heap: sequences of alloc and free calls, seen on the live blocks. FreeListHeap.Heap takes
  exactly these steps, and its free list is Gaps of the live blocks after each of them.
 */
module HeapRuns {
  import opened Machine
  import opened LiveBlocks

  datatype Call = AllocCall(request: int) | FreeCall(ptr: int)

  /** The live blocks after a call, or None when the call panics. */
  function Step(lo: int, hi: int, live: seq<Block>, c: Call): Option<seq<Block>> {
    match c
    case AllocCall(request) =>
      if request == 0 then Some(live)
      else
        (match Chosen(Gaps(lo, hi, live), request)
         case None => None
         case Some(b) => Some(Insert(live, b)))
    case FreeCall(ptr) =>
      if LiveAt(live, ptr - HEADER_SIZE) then Some(RemoveAt(live, ptr - HEADER_SIZE)) else None
  }

  function Run(lo: int, hi: int, live: seq<Block>, calls: seq<Call>): Option<seq<Block>>
    decreases calls
  {
    if calls == [] then Some(live)
    else
      match Step(lo, hi, live, calls[0])
      case None => None
      case Some(next) => Run(lo, hi, next, calls[1..])
  }

  lemma ChosenFits(lo: int, hi: int, live: seq<Block>, request: int)
    requires Ordered(lo, hi, live) && request != 0 && Chosen(Gaps(lo, hi, live), request).Some?
    ensures var b := Chosen(Gaps(lo, hi, live), request).value;
            Ordered(lo, hi, Insert(live, b)) && forall x :: x in live ==> x.addr != b.addr
  {
    var f, need := Gaps(lo, hi, live), Need(request);
    var k := FirstFit(f, need);
    GapsShape(lo, hi, live);
    InsertGaps(lo, hi, live, k, Granted(f[k].size, need));
    forall x | x in live ensures x.addr != f[k].addr {
      OrderedBounds(lo, hi, live);
      GapMissesBlock(lo, hi, live, k, x);
    }
  }

  lemma StepKeepsOrder(lo: int, hi: int, live: seq<Block>, c: Call)
    requires Ordered(lo, hi, live) && Step(lo, hi, live, c).Some?
    ensures Ordered(lo, hi, Step(lo, hi, live, c).value)
  {
    match c
    case AllocCall(request) =>
      if request != 0 {
        ChosenFits(lo, hi, live, request);
      }
    case FreeCall(ptr) =>
      RemoveGaps(lo, hi, live, Find(live, ptr - HEADER_SIZE));
  }

  /**
    After any run from a fresh heap the free list is sorted and fully coalesced, each free block can hold an
    entry, every byte of the heap is in exactly one free or live block, and the sizes add up.
   */
  lemma {:induction false} RunInvariant(lo: int, hi: int, live: seq<Block>, calls: seq<Call>)
    requires Ordered(lo, hi, live) && Run(lo, hi, live, calls).Some?
    ensures var end := Run(lo, hi, live, calls).value;
            && Ordered(lo, hi, end)
            && Separate(lo, hi, Gaps(lo, hi, end))
            && Total(Gaps(lo, hi, end)) + Total(end) == hi - lo
            && forall b :: lo <= b < hi ==> (Owns(Gaps(lo, hi, end), b) <==> !Owns(end, b))
    decreases calls
  {
    if calls == [] {
      GapsShape(lo, hi, live);
      Conservation(lo, hi, live);
      forall b | lo <= b < hi ensures Owns(Gaps(lo, hi, live), b) <==> !Owns(live, b) {
        Tiling(lo, hi, live, b);
      }
    } else {
      StepKeepsOrder(lo, hi, live, calls[0]);
      RunInvariant(lo, hi, Step(lo, hi, live, calls[0]).value, calls[1..]);
    }
  }

  // ---- the free list is a function of the set of live blocks

  lemma TailMembers(lo: int, hi: int, live: seq<Block>, x: Block)
    requires Ordered(lo, hi, live) && live != []
    ensures x in live[1..] <==> x in live && x != live[0]
  {
    OrderedBounds(lo, hi, live);
    assert live == [live[0]] + live[1..];
    if x in live[1..] {
      var i :| 0 <= i < |live[1..]| && live[1..][i] == x;
      assert x == live[i + 1];
    }
  }

  lemma HeadMember(s: seq<Block>)
    ensures s == [] || (s[0] in s && LiveAt(s, s[0].addr))
  {
  }

  /** Two states with the same live blocks have the same free list. */
  lemma {:induction false} LiveSetDetermines(lo: int, hi: int, live: seq<Block>, other: seq<Block>)
    requires Ordered(lo, hi, live) && Ordered(lo, hi, other)
    requires forall x :: x in live <==> x in other
    ensures live == other && Gaps(lo, hi, live) == Gaps(lo, hi, other)
    decreases live
  {
    HeadMember(live);
    HeadMember(other);
    if live != [] && other != [] {
      SameFirst(lo, hi, live, other);
      forall x ensures x in live[1..] <==> x in other[1..] {
        TailMembers(lo, hi, live, x);
        TailMembers(lo, hi, other, x);
      }
      LiveSetDetermines(live[0].End(), hi, live[1..], other[1..]);
      assert live == [live[0]] + live[1..] && other == [other[0]] + other[1..];
    }
  }

  lemma SameFirst(lo: int, hi: int, live: seq<Block>, other: seq<Block>)
    requires Ordered(lo, hi, live) && Ordered(lo, hi, other)
    requires forall x :: x in live <==> x in other
    requires live != [] && other != []
    ensures live[0] == other[0]
  {
    OrderedBounds(lo, hi, live);
    OrderedBounds(lo, hi, other);
    assert live[0] in other && other[0] in live;
  }

  lemma {:induction false} RemoveInserted(live: seq<Block>, b: Block)
    requires forall x :: x in live ==> x.addr != b.addr
    ensures LiveAt(Insert(live, b), b.addr) && RemoveAt(Insert(live, b), b.addr) == live
  {
    var l := Insert(live, b);
    if live == [] || b.addr < live[0].addr {
      assert l[0] == b && Find(l, b.addr) == 0;
      assert Remove(l, 0) == live;
    } else {
      RemoveInserted(live[1..], b);
      assert l[0] == live[0] && l[1..] == Insert(live[1..], b);
      assert live[0] in live;
      RemoveCons(l, b.addr);
      assert live == [live[0]] + live[1..];
    }
  }

  lemma RemoveCons(l: seq<Block>, a: int)
    requires l != [] && l[0].addr != a && LiveAt(l[1..], a)
    ensures LiveAt(l, a) && RemoveAt(l, a) == [l[0]] + RemoveAt(l[1..], a)
  {
    var p := Find(l[1..], a);
    assert Find(l, a) == 1 + p;
    assert l[..1 + p] == [l[0]] + l[1..][..p] && l[2 + p..] == l[1..][p + 1..];
  }

  /** alloc and then free of that block restores the identical live blocks, so the identical free list. */
  lemma AllocThenFree(lo: int, hi: int, live: seq<Block>, request: int)
    requires Ordered(lo, hi, live) && request != 0 && Chosen(Gaps(lo, hi, live), request).Some?
    ensures var b := Chosen(Gaps(lo, hi, live), request).value;
            Run(lo, hi, live, [AllocCall(request), FreeCall(b.addr + HEADER_SIZE)]) == Some(live)
  {
    var b := Chosen(Gaps(lo, hi, live), request).value;
    var calls := [AllocCall(request), FreeCall(b.addr + HEADER_SIZE)];
    ChosenFits(lo, hi, live, request);
    RemoveInserted(live, b);
    assert calls[1..] == [FreeCall(b.addr + HEADER_SIZE)] && calls[1..][1..] == [];
    assert Run(lo, hi, Insert(live, b), calls[1..]) == Some(live);
  }

  lemma {:induction false} FindIs(live: seq<Block>, a: int)
    ensures LiveAt(live, a) <==> exists x :: x in live && x.addr == a
  {
    if live != [] {
      FindIs(live[1..], a);
      assert live == [live[0]] + live[1..];
      if LiveAt(live, a) {
        assert live[Find(live, a)] in live;
      }
    }
  }

  /** free takes out exactly the block at its address. */
  lemma RemoveAtMembers(lo: int, hi: int, live: seq<Block>, a: int)
    requires Ordered(lo, hi, live) && LiveAt(live, a)
    ensures Ordered(lo, hi, RemoveAt(live, a))
    ensures forall x :: x in RemoveAt(live, a) <==> x in live && x.addr != a
  {
    var p := Find(live, a);
    RemoveGaps(lo, hi, live, p);
    OrderedBounds(lo, hi, live);
    var l := Remove(live, p);
    hide Ordered, Find, Gaps;
    forall x ensures x in l <==> x in live && x.addr != a {
      if x in l {
        RemoveMembers(lo, hi, live, p, x);
      }
      if x in live && x.addr != a {
        var q :| 0 <= q < |live| && live[q] == x;
        assert l[if q < p then q else q - 1] == x;
      }
    }
  }

  /** Freeing two blocks in either order gives the same live blocks, so the same free list. */
  lemma FreesCommute(lo: int, hi: int, live: seq<Block>, a: int, b: int)
    requires Ordered(lo, hi, live) && a != b && LiveAt(live, a) && LiveAt(live, b)
    ensures LiveAt(RemoveAt(live, a), b) && LiveAt(RemoveAt(live, b), a)
    ensures RemoveAt(RemoveAt(live, a), b) == RemoveAt(RemoveAt(live, b), a)
  {
    RemoveAtMembers(lo, hi, live, a);
    RemoveAtMembers(lo, hi, live, b);
    FindIs(live, a);
    FindIs(live, b);
    FindIs(RemoveAt(live, a), b);
    FindIs(RemoveAt(live, b), a);
    RemoveAtMembers(lo, hi, RemoveAt(live, a), b);
    RemoveAtMembers(lo, hi, RemoveAt(live, b), a);
    LiveSetDetermines(lo, hi, RemoveAt(RemoveAt(live, a), b), RemoveAt(RemoveAt(live, b), a));
  }

  function FreeCalls(order: seq<int>): seq<Call> {
    if order == [] then [] else [FreeCall(order[0] + HEADER_SIZE)] + FreeCalls(order[1..])
  }

  /** Freeing every live block, in whatever order, ends with no live block: one free block spans the heap. */
  lemma {:induction false} FreeAllInAnyOrder(lo: int, hi: int, live: seq<Block>, order: seq<int>)
    requires Ordered(lo, hi, live)
    requires forall i, j :: 0 <= i < j < |order| ==> order[i] != order[j]
    requires forall a :: a in order <==> LiveAt(live, a)
    ensures Run(lo, hi, live, FreeCalls(order)) == Some([])
    ensures Gaps(lo, hi, []) == Hole(lo, hi)
    decreases order
  {
    HeadMember(live);
    if order != [] {
      var a, rest := order[0], order[1..];
      assert a in order;
      var next := RemoveAt(live, a);
      RemoveAtMembers(lo, hi, live, a);
      forall c ensures c in rest <==> LiveAt(next, c) {
        FindIs(live, c);
        FindIs(next, c);
        assert order == [a] + rest;
        assert a !in rest;
      }
      FreeAllInAnyOrder(lo, hi, next, rest);
      assert FreeCalls(order)[0] == FreeCall(a + HEADER_SIZE) && FreeCalls(order)[1..] == FreeCalls(rest);
    }
  }

  // ---- what a request gets

  /**
    The block is the lowest that is large enough; the size recorded exceeds max(request + 8, 12) by less than
    12. The payload covers the request exactly when request + 8 does not wrap in 32 bits.
   */
  lemma WasteBound(f: seq<Block>, request: int)
    requires 0 < request < TWO_32
    requires Chosen(f, request).Some?
    ensures var b := Chosen(f, request).value;
            && (request <= b.size - HEADER_SIZE <==> request + HEADER_SIZE < TWO_32)
            && (request + HEADER_SIZE < TWO_32 ==>
                  var need := Max(request + HEADER_SIZE, ENTRY_SIZE);
                  && need <= b.size < need + ENTRY_SIZE
                  && exists k :: 0 <= k < |f| && f[k].addr == b.addr && b.size <= f[k].size &&
                                 forall j :: 0 <= j < k ==> f[j].size < need)
  {
    var k := FirstFit(f, Need(request));
    assert f[k].addr == Chosen(f, request).value.addr;
  }

  /** k is the lowest block of f with room for need bytes, and b its front, of the least size that can be cut off. */
  predicate IsServed(f: seq<Block>, need: int, k: nat, b: Block) {
    && k < |f| && need <= f[k].size && (forall j :: 0 <= j < k ==> f[j].size < need)
    && b.addr == f[k].addr && LeastUsable(b.size, need, f[k].size)
  }

  /** The block a request is given, to the byte: header and payload, at least 12, in 32 bits. */
  lemma ServedExactly(f: seq<Block>, request: int)
    requires 0 < request < TWO_32
    ensures var need := Max(ToUint32(request + 8), 12);
            && (forall b :: Chosen(f, request) == Some(b) <==> exists k :: IsServed(f, need, k, b))
            && (Chosen(f, request).None? <==> forall j :: 0 <= j < |f| ==> f[j].size < need)
  {
    var need := Max(ToUint32(request + 8), 12);
    assert need == Need(request);
    var i := FirstFit(f, need);
    forall b ensures Chosen(f, request) == Some(b) <==> exists k :: IsServed(f, need, k, b) {
      if i < |f| {
        GrantedLeast(f[i].size, need, b.size);
        if Chosen(f, request) == Some(b) {
          assert IsServed(f, need, i, b);
        }
      }
      if k: nat :| IsServed(f, need, k, b) {
        FirstFitIs(f, need, k);
      }
    }
  }

  /** The largest request asks for 7 bytes after the wrap and is given a 12-byte block. */
  lemma WrappedRequest()
    ensures Need(0xFFFF_FFFF) == ENTRY_SIZE
    ensures Chosen([Block(0x10_0000, 48)], 0xFFFF_FFFF) == Some(Block(0x10_0000, 12))
  {
    assert FirstFit([Block(0x10_0000, 48)], ENTRY_SIZE) == 0;
  }
}
