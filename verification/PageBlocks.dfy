/**
  Whole runs of the page allocator: sequences of alloc and matching free calls, with the blocks outstanding
  after each of them. PageBitmap.BitmapAllocator takes exactly these steps on its page flags.
 */
module PageBlocks {
  import opened Machine
  import opened PageRuns

  /** used: the page flags; blocks: first page and length of every block that was given out. */
  datatype Pages = Pages(used: seq<bool>, blocks: map<int, int>)

  datatype Call = AllocCall(n: nat) | FreeCall(s: int)

  function Step(st: Pages, pagesCount: nat, c: Call): Pages {
    match c
    case AllocCall(n) =>
      (match Placement(st.used, pagesCount, n)
       case None => st
       case Some(s) => Pages(Marked(st.used, s, n, true), st.blocks[s := n]))
    case FreeCall(s) =>
      if s in st.blocks then Pages(Marked(st.used, s, st.blocks[s], false), st.blocks - {s}) else st
  }

  function Run(st: Pages, pagesCount: nat, calls: seq<Call>): Pages
    decreases calls
  {
    if calls == [] then st else Run(Step(st, pagesCount, calls[0]), pagesCount, calls[1..])
  }

  predicate Inside(blocks: map<int, int>, s: int, p: int) {
    s in blocks && s <= p < s + blocks[s]
  }

  /** Every block lies in the managed pages and leaves out the last of them. */
  predicate Placed(blocks: map<int, int>, pagesCount: nat) {
    forall s :: s in blocks ==> 0 <= s && 0 < blocks[s] && s + blocks[s] <= pagesCount - 1
  }

  predicate Disjoint(blocks: map<int, int>) {
    forall s, t :: s in blocks && t in blocks && s < t ==> s + blocks[s] <= t
  }

  /** A page is in use exactly when some block has it. */
  ghost predicate Owned(used: seq<bool>, blocks: map<int, int>) {
    forall p :: 0 <= p < |used| ==> (used[p] <==> exists s :: Inside(blocks, s, p))
  }

  ghost predicate Consistent(st: Pages, pagesCount: nat) {
    Placed(st.blocks, pagesCount) && Disjoint(st.blocks) && Owned(st.used, st.blocks) && pagesCount <= |st.used|
  }

  lemma AllocConsistent(st: Pages, pagesCount: nat, n: nat)
    requires Consistent(st, pagesCount) && Placement(st.used, pagesCount, n).Some?
    ensures var s := Placement(st.used, pagesCount, n).value;
            && s !in st.blocks
            && Consistent(Pages(Marked(st.used, s, n, true), st.blocks[s := n]), pagesCount)
  {
    var s := Placement(st.used, pagesCount, n).value;
    assert FreeRun(st.used, s, n) && 0 < n;
    var blocks' := st.blocks[s := n];
    forall t | t in st.blocks ensures s + n <= t || t + st.blocks[t] <= s {
      var p := Max(s, t);
      assert Inside(st.blocks, t, p) ==> st.used[p];
    }
    forall p | 0 <= p < |st.used|
      ensures Marked(st.used, s, n, true)[p] <==> exists t :: Inside(blocks', t, p)
    {
      if s <= p < s + n {
        assert Inside(blocks', s, p);
      } else if st.used[p] {
        var t :| Inside(st.blocks, t, p);
        assert Inside(blocks', t, p);
      } else {
        forall t ensures !Inside(blocks', t, p) {
          assert !Inside(st.blocks, t, p);
        }
      }
    }
  }

  lemma FreeConsistent(st: Pages, pagesCount: nat, s: int)
    requires Consistent(st, pagesCount) && s in st.blocks
    ensures UsedRun(st.used, s, st.blocks[s])
    ensures Consistent(Pages(Marked(st.used, s, st.blocks[s], false), st.blocks - {s}), pagesCount)
  {
    forall p | s <= p < s + st.blocks[s] ensures st.used[p] {
      assert Inside(st.blocks, s, p);
    }
    var blocks' := st.blocks - {s};
    forall p | 0 <= p < |st.used|
      ensures Marked(st.used, s, st.blocks[s], false)[p] <==> exists t :: Inside(blocks', t, p)
    {
      if s <= p < s + st.blocks[s] {
        forall t ensures !Inside(blocks', t, p) {
        }
      } else if st.used[p] {
        var t :| Inside(st.blocks, t, p);
        assert Inside(blocks', t, p);
      } else {
        forall t ensures !Inside(blocks', t, p) {
          assert !Inside(st.blocks, t, p);
        }
      }
    }
  }

  /**
    After any run the outstanding blocks are pairwise disjoint, lie in the managed pages, never contain the last
    one, and are together exactly the pages in use.
   */
  lemma {:induction false} RunInvariant(st: Pages, pagesCount: nat, calls: seq<Call>)
    requires Consistent(st, pagesCount)
    ensures Consistent(Run(st, pagesCount, calls), pagesCount)
    ensures var end := Run(st, pagesCount, calls);
            pagesCount > 0 ==> ClearFrom(end.used, pagesCount - 1)
    decreases calls
  {
    if calls == [] {
      LastPageClear(st, pagesCount);
    } else {
      match calls[0] {
        case AllocCall(n) =>
          if Placement(st.used, pagesCount, n).Some? {
            AllocConsistent(st, pagesCount, n);
          }
        case FreeCall(s) =>
          if s in st.blocks {
            FreeConsistent(st, pagesCount, s);
          }
      }
      RunInvariant(Step(st, pagesCount, calls[0]), pagesCount, calls[1..]);
    }
  }

  lemma LastPageClear(st: Pages, pagesCount: nat)
    requires Consistent(st, pagesCount)
    ensures pagesCount > 0 ==> ClearFrom(st.used, pagesCount - 1)
  {
  }

  /** alloc and then free of the block it gave restores the page flags and the blocks. */
  lemma AllocThenFree(st: Pages, pagesCount: nat, n: nat)
    requires Consistent(st, pagesCount) && Placement(st.used, pagesCount, n).Some?
    ensures var s := Placement(st.used, pagesCount, n).value;
            Run(st, pagesCount, [AllocCall(n), FreeCall(s)]) == st
  {
    var s := Placement(st.used, pagesCount, n).value;
    AllocConsistent(st, pagesCount, n);
    var mid := Step(st, pagesCount, AllocCall(n));
    assert FreeRun(st.used, s, n);
    assert Marked(mid.used, s, n, false) == st.used;
    assert mid.blocks - {s} == st.blocks;
    var calls := [AllocCall(n), FreeCall(s)];
    assert calls[1..] == [FreeCall(s)] && calls[1..][1..] == [];
    assert Run(mid, pagesCount, calls[1..]) == Run(Step(mid, pagesCount, FreeCall(s)), pagesCount, []);
  }
}
