/**
  The heap allocator of core/free_llist_allocator.cpp: an intrusive, doubly linked, address-ordered list of
  the free blocks, kept in the free memory itself.

  Memory is a map from a byte address to the 32-bit word stored there. A list entry at p has its prev link at
  p, its next link at p + 4 and its size at p + 8; the header of a live block at p has the checksum at p and
  the size at p + 4. Links and headers therefore overlay each other as they do in the kernel. A write through
  a null link is a write to word 0 or word 4, below every heap.
 */
module FreeList {
  import opened LiveBlocks

  const NULL := 0

  type Memory = map<int, int>

  function Word(m: Memory, a: int): int {
    if a in m then m[a] else 0
  }

  function AddrAt(f: seq<Block>, i: int): int {
    if 0 <= i < |f| then f[i].addr else NULL
  }

  /** The entries of f are spaced so that their links do not overlap each other or the null entry. */
  predicate Spaced(f: seq<Block>) {
    && (forall i :: 0 <= i < |f| ==> ENTRY_SIZE <= f[i].addr)
    && (forall i, j :: 0 <= i < j < |f| ==> f[i].addr + ENTRY_SIZE <= f[j].addr)
  }

  /** Entry i of f is stored in m with both its links and its size. */
  predicate Linked(m: Memory, f: seq<Block>, i: int)
    requires 0 <= i < |f|
  {
    && Word(m, f[i].addr) == AddrAt(f, i - 1)
    && Word(m, f[i].addr + 4) == AddrAt(f, i + 1)
    && Word(m, f[i].addr + 8) == f[i].size
  }

  /** The doubly linked list that starts at first is exactly f. */
  predicate Chain(m: Memory, first: int, f: seq<Block>) {
    && Spaced(f)
    && first == AddrAt(f, 0)
    && forall i :: 0 <= i < |f| ==> Linked(m, f, i)
  }

  /** a is not one of the words of the entry at p. */
  predicate Outside(p: int, a: int) {
    a < p || p + ENTRY_SIZE <= a
  }

  /** a is not a word of any entry of f. */
  predicate OffList(f: seq<Block>, a: int) {
    forall i :: 0 <= i < |f| ==> Outside(f[i].addr, a)
  }

  /** Only the null entry, the entries of f and the entry at p may differ between m and m'. */
  ghost predicate ChangedOnly(m: Memory, m': Memory, f: seq<Block>, p: int) {
    forall a {:trigger Word(m', a)} ::
      ENTRY_SIZE <= a && Outside(p, a) && OffList(f, a) ==> Word(m', a) == Word(m, a)
  }

  /** The words written when entry i leaves the list. */
  function Unlink(m: Memory, f: seq<Block>, i: nat): Memory
    requires i < |f|
  {
    m[AddrAt(f, i - 1) + 4 := AddrAt(f, i + 1)][AddrAt(f, i + 1) := AddrAt(f, i - 1)][f[i].addr + 8 := 0]
  }

  lemma RemoveAddrs(f: seq<Block>, i: nat, j: nat)
    requires i < |f| && j < |f| && j != i
    ensures var g, k := Remove(f, i), if j < i then j else j - 1;
            && g[k] == f[j]
            && AddrAt(g, k - 1) == AddrAt(f, if j == i + 1 then i - 1 else j - 1)
            && AddrAt(g, k + 1) == AddrAt(f, if j + 1 == i then i + 1 else j + 1)
  {
  }

  lemma UnlinkAt(m: Memory, f: seq<Block>, i: nat, j: nat)
    requires Spaced(f) && i < |f| && j < |f| && j != i
    requires Linked(m, f, j)
    ensures Linked(Unlink(m, f, i), Remove(f, i), if j < i then j else j - 1)
  {
    RemoveAddrs(f, i, j);
    hide Remove;
  }

  lemma RemoveSpaced(f: seq<Block>, i: nat)
    requires i < |f| && Spaced(f)
    ensures Spaced(Remove(f, i)) && |Remove(f, i)| == |f| - 1
    ensures AddrAt(Remove(f, i), 0) == AddrAt(f, if i == 0 then 1 else 0)
  {
    var g := Remove(f, i);
    assert forall j :: 0 <= j < |g| ==> g[j] == if j < i then f[j] else f[j + 1];
  }

  lemma UnlinkChanges(m: Memory, f: seq<Block>, i: nat)
    requires i < |f| && Spaced(f)
    ensures ChangedOnly(m, Unlink(m, f, i), f, f[i].addr)
  {
  }

  lemma UnlinkChain(m: Memory, first: int, f: seq<Block>, i: nat)
    requires Chain(m, first, f) && i < |f|
    ensures Chain(Unlink(m, f, i), if i == 0 then AddrAt(f, 1) else first, Remove(f, i))
    ensures ChangedOnly(m, Unlink(m, f, i), f, f[i].addr)
  {
    var g, m' := Remove(f, i), Unlink(m, f, i);
    RemoveSpaced(f, i);
    UnlinkChanges(m, f, i);
    hide Remove, Unlink, Spaced, ChangedOnly;
    forall k | 0 <= k < |g| ensures Linked(m', g, k) {
      UnlinkAt(m, f, i, if k < i then k else k + 1);
    }
  }

  // ---- an entry that moves

  /** The words written when entry i is copied to p with size n and its neighbours are pointed there. */
  function Move(m: Memory, f: seq<Block>, i: nat, p: int, n: int): Memory
    requires i < |f|
  {
    m[p := AddrAt(f, i - 1)][p + 4 := AddrAt(f, i + 1)][p + 8 := n]
     [AddrAt(f, i - 1) + 4 := p][AddrAt(f, i + 1) := p]
  }

  lemma MovedAddrs(f: seq<Block>, i: nat, p: int, n: int, j: nat)
    requires i < |f| && j < |f|
    ensures var g := f[i := Block(p, n)];
            && g[j] == (if j == i then Block(p, n) else f[j])
            && AddrAt(g, j - 1) == (if j == i + 1 then p else AddrAt(f, j - 1))
            && AddrAt(g, j + 1) == (if j + 1 == i then p else AddrAt(f, j + 1))
  {
  }

  /** p keeps its distance from the entries that stay. */
  lemma MovedSpacing(f: seq<Block>, i: nat, p: int, n: int)
    requires i < |f| && Spaced(f[i := Block(p, n)])
    ensures ENTRY_SIZE <= p
    ensures forall j :: 0 <= j < i ==> f[j].addr + ENTRY_SIZE <= p
    ensures forall j :: i < j < |f| ==> p + ENTRY_SIZE <= f[j].addr
  {
    var g := f[i := Block(p, n)];
    assert g[i].addr == p;
    assert forall j :: 0 <= j < |f| && j != i ==> g[j] == f[j];
  }

  lemma MoveAt(m: Memory, f: seq<Block>, i: nat, p: int, n: int, j: nat)
    requires Spaced(f) && i < |f| && j < |f|
    requires Spaced(f[i := Block(p, n)])
    requires Linked(m, f, j)
    ensures Linked(Move(m, f, i, p, n), f[i := Block(p, n)], j)
  {
    MovedSpacing(f, i, p, n);
    MovedAddrs(f, i, p, n, j);
    MoveWords(m, f, i, p, n, j);
  }

  lemma MoveWords(m: Memory, f: seq<Block>, i: nat, p: int, n: int, j: nat)
    requires Spaced(f) && i < |f| && j < |f|
    requires ENTRY_SIZE <= p
    requires forall k :: 0 <= k < i ==> f[k].addr + ENTRY_SIZE <= p
    requires forall k :: i < k < |f| ==> p + ENTRY_SIZE <= f[k].addr
    requires Linked(m, f, j)
    ensures var m', a := Move(m, f, i, p, n), if j == i then p else f[j].addr;
            && Word(m', a) == (if j == i + 1 then p else AddrAt(f, j - 1))
            && Word(m', a + 4) == (if j + 1 == i then p else AddrAt(f, j + 1))
            && Word(m', a + 8) == (if j == i then n else f[j].size)
  {
  }

  lemma MoveChain(m: Memory, first: int, f: seq<Block>, i: nat, p: int, n: int)
    requires Chain(m, first, f) && i < |f|
    requires Spaced(f[i := Block(p, n)])
    ensures Chain(Move(m, f, i, p, n), if i == 0 then p else first, f[i := Block(p, n)])
    ensures ChangedOnly(m, Move(m, f, i, p, n), f, p)
  {
    var g := f[i := Block(p, n)];
    forall j | 0 <= j < |g| ensures Linked(Move(m, f, i, p, n), g, j) {
      MoveAt(m, f, i, p, n, j);
    }
  }

  // ---- a new entry

  function With(f: seq<Block>, i: nat, b: Block): seq<Block>
    requires i <= |f|
  {
    f[..i] + [b] + f[i..]
  }

  /** m' is m with b written as entry i and its neighbours pointed at it, whatever the order of the writes. */
  ghost predicate Inserted(m: Memory, m': Memory, f: seq<Block>, i: nat, b: Block)
    requires i <= |f|
  {
    && Word(m', b.addr) == AddrAt(f, i - 1) && Word(m', b.addr + 4) == AddrAt(f, i) && Word(m', b.addr + 8) == b.size
    && (i > 0 ==> Word(m', f[i - 1].addr + 4) == b.addr)
    && (i < |f| ==> Word(m', f[i].addr) == b.addr)
    && forall a {:trigger Word(m', a)} ::
         Outside(b.addr, a) && (i > 0 ==> a != f[i - 1].addr + 4) && (i < |f| ==> a != f[i].addr) ==>
           Word(m', a) == Word(m, a)
  }

  lemma WithAddrs(f: seq<Block>, i: nat, b: Block, j: nat)
    requires i <= |f| && j < |f|
    ensures var g, k := With(f, i, b), if j < i then j else j + 1;
            && g[k] == f[j]
            && AddrAt(g, k - 1) == (if j == i then b.addr else AddrAt(f, j - 1))
            && AddrAt(g, k + 1) == (if j + 1 == i then b.addr else AddrAt(f, j + 1))
  {
  }

  lemma WithAddrAt(f: seq<Block>, i: nat, b: Block)
    requires i <= |f|
    ensures |With(f, i, b)| == |f| + 1 && With(f, i, b)[i] == b
    ensures AddrAt(With(f, i, b), i - 1) == AddrAt(f, i - 1)
  {
  }

  lemma SpacedAround(f: seq<Block>, i: nat, b: Block)
    requires i <= |f| && Spaced(With(f, i, b))
    ensures ENTRY_SIZE <= b.addr
    ensures forall j :: 0 <= j < i ==> f[j].addr + ENTRY_SIZE <= b.addr
    ensures forall j :: i <= j < |f| ==> b.addr + ENTRY_SIZE <= f[j].addr
  {
    var g := With(f, i, b);
    assert g[i] == b;
    assert forall j :: 0 <= j < i ==> g[j] == f[j];
    assert forall j :: i <= j < |f| ==> g[j + 1] == f[j];
  }

  lemma InsertedAt(m: Memory, m': Memory, f: seq<Block>, i: nat, b: Block, j: nat)
    requires i <= |f| && j < |f|
    requires Spaced(f) && Spaced(With(f, i, b))
    requires Inserted(m, m', f, i, b)
    requires Linked(m, f, j)
    ensures Linked(m', With(f, i, b), if j < i then j else j + 1)
  {
    SpacedAround(f, i, b);
    WithAddrs(f, i, b, j);
    hide With;
  }

  lemma InsertedNew(m: Memory, m': Memory, f: seq<Block>, i: nat, b: Block)
    requires i <= |f|
    requires Inserted(m, m', f, i, b)
    ensures Linked(m', With(f, i, b), i)
  {
    var g := With(f, i, b);
    assert g[i] == b;
    assert i > 0 ==> g[i - 1] == f[i - 1];
    assert i < |f| ==> g[i + 1] == f[i];
  }

  lemma InsertedChain(m: Memory, m': Memory, first: int, f: seq<Block>, i: nat, b: Block)
    requires Chain(m, first, f) && i <= |f|
    requires Spaced(With(f, i, b))
    requires Inserted(m, m', f, i, b)
    ensures Chain(m', if i == 0 then b.addr else first, With(f, i, b))
    ensures ChangedOnly(m, m', f, b.addr)
  {
    var g := With(f, i, b);
    forall k | 0 <= k < |g| ensures Linked(m', g, k) {
      if k == i {
        InsertedNew(m, m', f, i, b);
      } else {
        InsertedAt(m, m', f, i, b, if k < i then k else k - 1);
      }
    }
  }

  lemma ResizeChain(m: Memory, first: int, f: seq<Block>, i: nat, n: int, p: int)
    requires Chain(m, first, f) && i < |f|
    ensures Chain(m[f[i].addr + 8 := n], first, f[i := Block(f[i].addr, n)])
    ensures ChangedOnly(m, m[f[i].addr + 8 := n], f, p)
  {
    var g := f[i := Block(f[i].addr, n)];
    assert forall j :: 0 <= j < |f| ==> g[j].addr == f[j].addr;
    var m' := m[f[i].addr + 8 := n];
    forall j | 0 <= j < |g| ensures Linked(m', g, j) {
      assert Linked(m, f, j);
    }
  }

  lemma ChainKept(m: Memory, m': Memory, first: int, f: seq<Block>)
    requires Chain(m, first, f)
    requires forall j :: 0 <= j < |f| ==>
               && Word(m', f[j].addr) == Word(m, f[j].addr)
               && Word(m', f[j].addr + 4) == Word(m, f[j].addr + 4)
               && Word(m', f[j].addr + 8) == Word(m, f[j].addr + 8)
    ensures Chain(m', first, f)
  {
    forall j | 0 <= j < |f| ensures Linked(m', f, j) {
      assert Linked(m, f, j);
    }
  }

  lemma ChainLink(m: Memory, first: int, f: seq<Block>, i: nat)
    requires Chain(m, first, f) && i <= |f|
    ensures first == AddrAt(f, 0)
    ensures i < |f| ==> Linked(m, f, i) && ENTRY_SIZE <= f[i].addr
  {
  }

  lemma EntriesApart(m: Memory, first: int, f: seq<Block>, i: nat)
    requires Chain(m, first, f) && i < |f|
    ensures i > 0 ==> first != f[i].addr && f[i - 1].addr + ENTRY_SIZE <= f[i].addr
    ensures i + 1 < |f| ==> f[i].addr + ENTRY_SIZE <= f[i + 1].addr
  {
  }

  lemma ChangedInList(m: Memory, m': Memory, f: seq<Block>, i: nat, p: int)
    requires i < |f| && ChangedOnly(m, m', f, f[i].addr)
    ensures ChangedOnly(m, m', f, p)
  {
  }

  lemma Unchanged(m: Memory, m': Memory, f: seq<Block>, p: int, a: int)
    requires ChangedOnly(m, m', f, p) && OffList(f, a) && Outside(p, a) && ENTRY_SIZE <= a
    ensures Word(m', a) == Word(m, a)
  {
  }

  /** The same entries with other sizes. */
  lemma ChangedTwice(m0: Memory, m1: Memory, m2: Memory, g: seq<Block>, h: seq<Block>, p: int)
    requires |h| == |g| && forall j :: 0 <= j < |g| ==> h[j].addr == g[j].addr
    requires ChangedOnly(m0, m1, g, p) && ChangedOnly(m1, m2, h, p)
    ensures ChangedOnly(m0, m2, g, p)
  {
    forall a | ENTRY_SIZE <= a && Outside(p, a) && OffList(g, a) ensures Word(m2, a) == Word(m0, a) {
      assert OffList(h, a);
      assert Word(m1, a) == Word(m0, a);
    }
  }

  // ---- what Coalesce does to the list, case by case

  lemma ReplacedAt(f: seq<Block>, i: nat, c: Block)
    requires i < |f|
    ensures f[..i] + ([c] + f[i + 1..]) == f[i := c]
  {
  }

  lemma ReplacedBoth(f: seq<Block>, i: nat, x: Block, c: Block)
    requires i + 1 < |f|
    ensures f[..i] + ([c] + f[i + 2..]) == Remove(f[i := x][i := c], i + 1)
  {
    var g := f[i := x][i := c];
    assert g[..i + 1] == f[..i] + [c];
    assert g[i + 2..] == f[i + 2..];
  }

  /** Entry i grown over block b behind it, and over the next entry when it then reaches that. */
  function GrownOver(f: seq<Block>, b: Block, i: nat): seq<Block>
    requires i < |f|
  {
    var g := f[i := Block(f[i].addr, f[i].size + b.size)];
    if i + 1 < |f| && f[i + 1].addr == g[i].End()
    then Remove(g[i := Block(f[i].addr, g[i].size + f[i + 1].size)], i + 1) else g
  }

  lemma JoinedBelow(f: seq<Block>, b: Block, i: nat)
    requires i < |f| && f[i].End() == b.addr && !(i + 1 < |f| && f[i + 1].addr == b.End())
    ensures f[..i] + CoalesceFront(f[i..], b) == GrownOver(f, b, i)
  {
    var t, x := f[i..], Block(f[i].addr, f[i].size + b.size);
    assert t[0] == f[i] && t[1..] == f[i + 1..];
    assert |t| > 1 ==> t[1] == f[i + 1];
    assert CoalesceFront(t, b) == [x] + f[i + 1..];
    ReplacedAt(f, i, x);
  }

  lemma JoinedBoth(f: seq<Block>, b: Block, i: nat)
    requires i + 1 < |f| && f[i].End() == b.addr && f[i + 1].addr == b.End()
    ensures f[..i] + CoalesceFront(f[i..], b) == GrownOver(f, b, i)
  {
    hide Remove;
    var t, x := f[i..], Block(f[i].addr, f[i].size + b.size);
    var c := Block(f[i].addr, x.size + f[i + 1].size);
    assert t[0] == f[i] && t[1] == f[i + 1] && t[2..] == f[i + 2..];
    assert CoalesceFront(t, b) == [c] + f[i + 2..];
    ReplacedBoth(f, i, x, c);
    assert f[i := x][i] == x;
  }

  lemma CoalesceBelow(f: seq<Block>, b: Block, i: nat)
    requires i < |f| && f[i].End() == b.addr
    requires forall j :: 0 <= j < i ==> f[j].End() < b.addr
    ensures Coalesce(f, b) == GrownOver(f, b, i)
  {
    CoalesceAt(f, b, i);
    hide *;
    if i + 1 < |f| && f[i + 1].addr == b.End() {
      JoinedBoth(f, b, i);
    } else {
      JoinedBelow(f, b, i);
    }
  }

  lemma CoalesceAbove(f: seq<Block>, b: Block, i: nat)
    requires i <= |f|
    requires forall j :: 0 <= j < i ==> f[j].End() < b.addr
    requires i < |f| ==> b.End() <= f[i].addr && b.addr < f[i].End()
    ensures Coalesce(f, b) ==
            if i < |f| && f[i].addr == b.End() then f[i := Block(b.addr, b.size + f[i].size)] else With(f, i, b)
  {
    CoalesceAt(f, b, i);
    hide Coalesce;
    var t := f[i..];
    if i < |f| && f[i].addr == b.End() {
      assert t[0] == f[i] && t[1..] == f[i + 1..];
      assert CoalesceFront(t, b) == [Block(b.addr, b.size + f[i].size)] + f[i + 1..];
      ReplacedAt(f, i, Block(b.addr, b.size + f[i].size));
    } else {
      assert i < |f| ==> t[0] == f[i];
      assert CoalesceFront(t, b) == [b] + t;
      assert f[..i] + ([b] + t) == With(f, i, b);
    }
  }
}
