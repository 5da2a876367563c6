/**
  alloc_pages and free_pages of core/mmanager.cpp: the page allocator and the page tables kept in step. Memory
  that holds page tables is a map from the frame of a table to its entries.
 */
module PageManager {
  import opened Machine
  import opened PageRuns
  import opened PageBlocks
  import opened PageTables
  import opened PageBitmap

  function DirIndex(addr: nat): nat { addr / 0x40_0000 }

  function TableIndex(addr: nat): nat { addr / PAGE_SIZE % ENTRIES }

  lemma Decompose(addr: nat, f: nat)
    requires addr == PAGE_SIZE * f
    ensures DirIndex(addr) == f / ENTRIES && TableIndex(addr) == f % ENTRIES
  {
  }

  /** The state of the page allocator and the page tables belong together. */
  ghost predicate ManagerOk(used: seq<bool>, base: int, pagesCount: nat, dir: seq<DirEntry>, tables: map<int, Table>,
                      blocks: map<int, int>, live: map<int, int>)
  {
    Consistent(Pages(used, blocks), pagesCount) && PagingOk(dir, tables, base, pagesCount, blocks, live)
  }

  /** A new block of the page allocator, not yet given to anyone. */
  lemma BlockTaken(used: seq<bool>, base: int, pagesCount: nat, dir: seq<DirEntry>, tables: map<int, Table>,
                   blocks: map<int, int>, live: map<int, int>, n: nat)
    requires ManagerOk(used, base, pagesCount, dir, tables, blocks, live)
    requires Placement(used, pagesCount, n).Some?
    ensures var s := Placement(used, pagesCount, n).value;
            && s !in blocks && s !in live && NoTableAt(dir, base, s) && s + n <= pagesCount && 0 < n
            && ManagerOk(Marked(used, s, n, true), base, pagesCount, dir, tables, blocks[s := n], live)
  {
    var s := Placement(used, pagesCount, n).value;
    AllocConsistent(Pages(used, blocks), pagesCount, n);
    GrowOk(dir, tables, base, pagesCount, blocks, live, s, n);
  }

  /** Page s starts a block of n pages given out that nobody holds and no table uses. */
  ghost predicate Spare(base: int, dir: seq<DirEntry>, blocks: map<int, int>, live: map<int, int>, s: int, n: int) {
    s in blocks && blocks[s] == n && s !in live && NoTableAt(dir, base, s)
  }

  /** The page for a new table is found, hooked in, and the spare block s stays spare. */
  lemma TableTaken(used: seq<bool>, base: int, pagesCount: nat, dir: seq<DirEntry>, tables: map<int, Table>,
                   blocks: map<int, int>, live: map<int, int>, d: nat, s: int, n: int)
    requires ManagerOk(used, base, pagesCount, dir, tables, blocks, live)
    requires Placement(used, pagesCount, 1).Some? && d < ENTRIES && !dir[d].present
    requires base + Placement(used, pagesCount, 1).value < ENTRIES
    requires Spare(base, dir, blocks, live, s, n)
    ensures var p := Placement(used, pagesCount, 1).value;
            var dir' := dir[d := DirEntry(true, false, base + p)];
            && ManagerOk(Marked(used, p, 1, true), base, pagesCount, dir', tables[base + p := EMPTY_TABLE],
                         blocks[p := 1], live)
            && Spare(base, dir', blocks[p := 1], live, s, n) && HasTable(dir', d)
  {
    var p := Placement(used, pagesCount, 1).value;
    BlockTaken(used, base, pagesCount, dir, tables, blocks, live, 1);
    FreshReachable(dir, tables, base, pagesCount, blocks[p := 1], live, p);
    InstallOk(dir, tables, base, pagesCount, blocks[p := 1], live, d, p, s);
    assert dir[0].present;
  }

  /** What paging_map does with a spare block: nothing in the first 4 MB, else its entries in its table. */
  lemma BlockGiven(used: seq<bool>, base: int, pagesCount: nat, dir: seq<DirEntry>, tables: map<int, Table>,
                   blocks: map<int, int>, live: map<int, int>, s: int, n: nat)
    requires ManagerOk(used, base, pagesCount, dir, tables, blocks, live)
    requires Spare(base, dir, blocks, live, s, n)
    ensures base + s >= 0
    ensures base + s < ENTRIES ==> ManagerOk(used, base, pagesCount, dir, tables, blocks, live[s := n])
    ensures var d, t := (base + s) / ENTRIES, (base + s) % ENTRIES;
            base + s >= ENTRIES && HasTable(dir, d) && t + n < ENTRIES ==>
              var a := dir[d].address;
              && a in tables && (forall k :: t <= k < t + n ==> !tables[a][k].present)
              && ManagerOk(used, base, pagesCount, dir, tables[a := MapEntries(tables[a], t, base + s, n)], blocks, live[s := n])
  {
    var d, t := (base + s) / ENTRIES, (base + s) % ENTRIES;
    if base + s < ENTRIES {
      GiveLowOk(dir, tables, base, pagesCount, blocks, live, s);
    } else if HasTable(dir, d) && t + n < ENTRIES {
      FreshEntriesAbsent(dir, tables, base, pagesCount, blocks, live, s);
      MapOk(dir, tables, base, pagesCount, blocks, live, s);
      var a := dir[d].address;
      forall k | t <= k < t + n ensures !tables[a][k].present {
        assert !PresentAt(dir, tables, d, k);
      }
    }
  }

  lemma SpareNow(base: int, dir: seq<DirEntry>, blocks: map<int, int>, live: map<int, int>, s: int, n: int)
    requires s in blocks && blocks[s] == n && s !in live && NoTableAt(dir, base, s)
    ensures Spare(base, dir, blocks, live, s, n)
  {
  }

  lemma NullIsLow()
    ensures DirIndex(NULL) == 0
  {
  }

  lemma LowGiven(used: seq<bool>, base: int, pagesCount: nat, dir: seq<DirEntry>, tables: map<int, Table>,
                 blocks: map<int, int>, live: map<int, int>, s: int, n: nat, addr: nat)
    requires ManagerOk(used, base, pagesCount, dir, tables, blocks, live) && Spare(base, dir, blocks, live, s, n)
    requires addr == PAGE_SIZE * (base + s) && DirIndex(addr) == 0
    ensures ManagerOk(used, base, pagesCount, dir, tables, blocks, live[s := n])
  {
    Decompose(addr, base + s);
    BlockGiven(used, base, pagesCount, dir, tables, blocks, live, s, n);
  }

  lemma DirRange(addr: nat)
    requires addr < TWO_32
    ensures DirIndex(addr) < ENTRIES
  {
  }

  /** Directory entry d has its table, or the page allocator has a page for one. */
  predicate TableAvailable(dir: seq<DirEntry>, d: nat, used: seq<bool>, pagesCount: nat) {
    (d < |dir| && dir[d].present) || Placement(used, pagesCount, 1).Some?
  }

  /** A page for the missing table of directory entry d is found, but outside the first 4 MB. */
  predicate TableFaults(dir: seq<DirEntry>, d: nat, used: seq<bool>, pagesCount: nat, base: int) {
    d < |dir| && !dir[d].present && Placement(used, pagesCount, 1).Some? &&
    base + Placement(used, pagesCount, 1).value >= ENTRIES
  }

  /** The page found for a missing table can be written to its own address exactly in the first 4 MB. */
  lemma NewTableReachable(used: seq<bool>, base: int, pagesCount: nat, dir: seq<DirEntry>, tables: map<int, Table>,
                          blocks: map<int, int>, live: map<int, int>)
    requires ManagerOk(used, base, pagesCount, dir, tables, blocks, live)
    requires Placement(used, pagesCount, 1).Some?
    ensures var p := Placement(used, pagesCount, 1).value;
            0 <= base + p < ENTRIES * ENTRIES && (Reachable(dir, tables, base + p) <==> base + p < ENTRIES)
  {
    var p := Placement(used, pagesCount, 1).value;
    BlockTaken(used, base, pagesCount, dir, tables, blocks, live, 1);
    FreshReachable(dir, tables, base, pagesCount, blocks[p := 1], live, p);
  }

  lemma FrameZero(dir: seq<DirEntry>, tables: map<int, Table>)
    requires |dir| == ENTRIES && dir[0] == DirEntry(true, true, 0)
    ensures Reachable(dir, tables, 0)
  {
  }

  /** A single page that lands above the first 4 MB leaves no page below for its table: the request faults, or there
      is no page at all. */
  lemma SinglePageNeedsTable(used: seq<bool>, base: int, pagesCount: nat, dir: seq<DirEntry>)
    requires |dir| == ENTRIES && 0 < base && base + pagesCount <= ENTRIES * ENTRIES
    requires Placement(used, pagesCount, 1).Some?
    ensures var s := Placement(used, pagesCount, 1).value;
            var rest := Marked(used, s, 1, true);
            var d := (base + s) / ENTRIES;
            base + s >= ENTRIES && !dir[d].present ==>
              (TableFaults(dir, d, rest, pagesCount, base) <==> Placement(rest, pagesCount, 1).Some?)
  {
    var s := Placement(used, pagesCount, 1).value;
    var rest := Marked(used, s, 1, true);
    if Placement(rest, pagesCount, 1).Some? {
      var p := Placement(rest, pagesCount, 1).value;
      assert FreeRun(rest, p, 1) && !rest[p] && rest[s];
      assert FreeRun(used, p, 1);
    }
  }

  const FULL_LOW: seq<bool> := seq(104, p => p < 24)

  lemma FullLowIs()
    ensures |FULL_LOW| == 104 && forall p :: 0 <= p < 104 ==> (FULL_LOW[p] <==> p < 24)
  {
  }

  /** The first 4 MB full and no table above them: alloc_pages(1) places frame 1024, and its table faults. */
  lemma FirstPageAbove()
    ensures ManagerOk(FULL_LOW, 1000, 100, INITIAL_DIR, map[], map[0 := 1, 1 := 23], map[1 := 23])
    ensures Placement(FULL_LOW, 100, 1) == Some(24)
    ensures TableFaults(INITIAL_DIR, 1, Marked(FULL_LOW, 24, 1, true), 100, 1000)
  {
    FullLowIs();
    FullLowOwned();
    assert forall d :: !HasTable(INITIAL_DIR, d);
    assert FreeRun(FULL_LOW, 24, 1);
    var s := Placement(FULL_LOW, 100, 1).value;
    assert FreeRun(FULL_LOW, s, 1) && !FULL_LOW[s];
    assert FreeRun(Marked(FULL_LOW, 24, 1, true), 25, 1);
    SinglePageNeedsTable(FULL_LOW, 1000, 100, INITIAL_DIR);
  }

  lemma FullLowOwned()
    ensures Consistent(Pages(FULL_LOW, map[0 := 1, 1 := 23]), 100)
  {
    var blocks := map[0 := 1, 1 := 23];
    FullLowIs();
    forall p | 0 <= p < |FULL_LOW| ensures FULL_LOW[p] <==> exists s :: Inside(blocks, s, p) {
      assert p < 24 ==> Inside(blocks, if p == 0 then 0 else 1, p);
    }
  }

  lemma PageOf(addr: int, begin: int, s: int)
    requires begin % PAGE_SIZE == 0 && addr == begin + PAGE_SIZE * s
    ensures addr % PAGE_SIZE == 0 && (addr - begin) / PAGE_SIZE == s && addr == PAGE_SIZE * (begin / PAGE_SIZE + s)
  {
  }

  /** The tables without the entries of the block at page s. */
  function Unmapped(tables: map<int, Table>, dir: seq<DirEntry>, base: int, s: int, n: nat): map<int, Table> {
    var d, t := (base + s) / ENTRIES, (base + s) % ENTRIES;
    if base + s < ENTRIES || d >= |dir| || dir[d].address !in tables || t + n > ENTRIES then tables
    else tables[dir[d].address := UnmapEntries(tables[dir[d].address], t, n)]
  }

  /** What paging_unmap and the page allocator do with a live block. */
  lemma BlockReturned(used: seq<bool>, base: int, pagesCount: nat, dir: seq<DirEntry>, tables: map<int, Table>,
                      blocks: map<int, int>, live: map<int, int>, s: int)
    requires ManagerOk(used, base, pagesCount, dir, tables, blocks, live) && s in live
    ensures 0 <= s && 0 < live[s] && s + live[s] <= |used| && UsedRun(used, s, live[s])
    ensures base + s >= ENTRIES ==>
              var d, t := (base + s) / ENTRIES, (base + s) % ENTRIES;
              && t + live[s] < ENTRIES && d < ENTRIES && dir[d].present && dir[d].address in tables
              && (forall k :: t <= k < t + live[s] ==> tables[dir[d].address][k].present)
    ensures ManagerOk(Marked(used, s, live[s], false), base, pagesCount, dir, Unmapped(tables, dir, base, s, live[s]),
                      blocks - {s}, live - {s})
  {
    FreeConsistent(Pages(used, blocks), pagesCount, s);
    if base + s < ENTRIES {
      TakeLowOk(dir, tables, base, pagesCount, blocks, live, s);
    } else {
      UnmapOk(dir, tables, base, pagesCount, blocks, live, s);
      MappedEntries(dir, tables, base, s, live[s]);
    }
  }

  lemma MappedEntries(dir: seq<DirEntry>, tables: map<int, Table>, base: int, s: int, n: nat)
    requires Mapped(dir, tables, base, s, n) && 0 < n && 0 <= base + s && |dir| == ENTRIES
    ensures var d, t := (base + s) / ENTRIES, (base + s) % ENTRIES;
            && t + n < ENTRIES && 0 < d < ENTRIES && dir[d].present && dir[d].address in tables
            && (forall k :: t <= k < t + n ==> tables[dir[d].address][k].present)
  {
    var d, t := (base + s) / ENTRIES, (base + s) % ENTRIES;
    assert PresentAt(dir, tables, d, t);
    forall k | t <= k < t + n ensures tables[dir[d].address][k].present {
      assert PresentAt(dir, tables, d, k);
    }
  }

  /** A table entry at frame 0 is outside what the page allocator manages. */
  lemma TableAtZero(used: seq<bool>, base: int, pagesCount: nat, dir: seq<DirEntry>, tables: map<int, Table>,
                    blocks: map<int, int>, live: map<int, int>, d: int)
    requires HasTable(dir, d) && dir[d].address == 0
    ensures !ManagerOk(used, base, pagesCount, dir, tables, blocks, live)
  {
  }

  class PageManager {
    const pageAllocator: BitmapAllocator
    var dir: seq<DirEntry>
    var tables: map<int, Table>
    ghost var blocks: map<int, int>
    ghost var live: map<int, int>

    ghost function Base(): int
      reads pageAllocator
    {
      pageAllocator.begin / PAGE_SIZE
    }

    ghost predicate Valid()
      reads this, pageAllocator, pageAllocator.bitmapData
    {
      && pageAllocator.Valid()
      && ManagerOk(pageAllocator.Used(), Base(), pageAllocator.pagesCount, dir, tables, blocks, live)
    }

    /**
      The part of init that sets up the directory, over a page allocator that has given out nothing. The directory
      is of use exactly when it lies in the first 4 MB, where it stays reachable once paging is on.
     */
    constructor (allocator: BitmapAllocator)
      requires allocator.Valid() && allocator.pagesCount >= 2
      requires forall p :: 0 <= p < |allocator.Used()| ==> !allocator.Used()[p]
      modifies allocator, allocator.bitmapData
      ensures pageAllocator == allocator && (Valid() <==> Base() < ENTRIES)
      ensures live == map[] && blocks == map[0 := 1]
    {
      pageAllocator := allocator;
      dir := INITIAL_DIR;
      tables := map[];
      blocks := map[0 := 1];
      live := map[];
      new;
      ghost var used := allocator.Used();
      AllocatorFacts(allocator);
      var page := allocator.Alloc(1);
      assert FreeRun(used, 0, 1);
      assert Placement(used, allocator.pagesCount, 1) == Some(0);
      FreshConsistent(used, allocator.pagesCount);
    }

    /** The table entries of a block, one by one; none of them may be present already. */
    method MapTableEntries(a: int, t: nat, addr: int, pageCount: nat)
      requires |dir| == ENTRIES && 0 <= a < ENTRIES * ENTRIES && Reachable(dir, tables, a)
      requires a in tables && t + pageCount <= ENTRIES && 0 <= addr && addr % PAGE_SIZE == 0
      requires forall k :: t <= k < t + pageCount ==> !tables[a][k].present
      modifies this`tables
      ensures tables == old(tables)[a := MapEntries(old(tables)[a], t, addr / PAGE_SIZE, pageCount)]
    {
      ghost var before := tables[a];
      for i := 0 to pageCount
        invariant a in tables && tables == old(tables)[a := tables[a]]
        invariant tables[a] == MapEntries(before, t, addr / PAGE_SIZE, i)
      {
        assert !tables[a][t + i].present;
        var table: Table := tables[a][t + i := TableEntry(true, (addr + i * PAGE_SIZE) / PAGE_SIZE)];
        assert table == MapEntries(before, t, addr / PAGE_SIZE, i + 1);
        tables := tables[a := table];
      }
    }

    /**
      The first half of paging_map: a page table for directory entry d. Clearing the page faults, which is a panic,
      exactly when a page is found outside the first 4 MB.
     */
    method InstallTable(d: nat, ghost s: int, ghost n: int) returns (ok: bool)
      requires Valid() && d < ENTRIES && !dir[d].present && Spare(Base(), dir, blocks, live, s, n)
      modifies this`dir, this`tables, this`blocks, pageAllocator, pageAllocator.bitmapData
      ensures pageAllocator.begin == old(pageAllocator.begin) && pageAllocator.pagesCount == old(pageAllocator.pagesCount)
      ensures pageAllocator.bitmapData == old(pageAllocator.bitmapData)
      ensures ok <==> !TableFaults(old(dir), d, old(pageAllocator.Used()), pageAllocator.pagesCount, Base())
      ensures !ok ==> dir == old(dir) && tables == old(tables)
      ensures ok ==> |dir| == ENTRIES && dir[0] == DirEntry(true, true, 0)
      ensures ok ==> dir[d].present && !dir[d].fourMbPages
      ensures ok ==> dir[d].address in tables && tables[dir[d].address] == EMPTY_TABLE
      ensures ok ==>
                match Placement(old(pageAllocator.Used()), pageAllocator.pagesCount, 1)
                case None => dir[d].address == 0
                case Some(p) => Valid() && Spare(Base(), dir, blocks, live, s, n) && HasTable(dir, d)
    {
      hide ManagerOk, Spare, BitmapOk, Marked, Placement, Flags, HasTable, Reachable;
      AllocatorFacts(pageAllocator);
      ManagerFacts(pageAllocator.Used(), Base(), pageAllocator.pagesCount, dir, tables, blocks, live);
      ghost var used := pageAllocator.Used();
      ghost var place := Placement(used, pageAllocator.pagesCount, 1);
      FrameZero(dir, tables);
      if place.Some? {
        NewTableReachable(used, Base(), pageAllocator.pagesCount, dir, tables, blocks, live);
        if Base() + place.value < ENTRIES {
          TableTaken(used, Base(), pageAllocator.pagesCount, dir, tables, blocks, live, d, s, n);
        }
      }
      var newPageTable := pageAllocator.Alloc(1);
      if !Reachable(dir, tables, newPageTable / PAGE_SIZE) {
        return false;
      }
      tables := tables[newPageTable / PAGE_SIZE := EMPTY_TABLE];
      dir := dir[d := DirEntry(true, false, newPageTable / PAGE_SIZE)];
      if place.Some? {
        blocks := blocks[place.value := 1];
      }
      return true;
    }

    /**
      paging_map: nothing in the first 4 MB; above, the entries of the spare block at page s. It panics exactly when
      clearing a missing table faults or the table has no room for the block, and otherwise keeps the invariant
      exactly when a missing table finds a page.
     */
    method PagingMap(addr: nat, pageCount: nat, ghost s: int) returns (ok: bool)
      requires Valid() && addr < TWO_32
      requires DirIndex(addr) > 0 ==> addr == PAGE_SIZE * (Base() + s) && Spare(Base(), dir, blocks, live, s, pageCount)
      modifies this, pageAllocator, pageAllocator.bitmapData
      ensures DirIndex(addr) == 0 ==>
                ok && Valid() && live == old(live) && blocks == old(blocks) && dir == old(dir) && tables == old(tables)
      ensures pageAllocator.begin == old(pageAllocator.begin)
      ensures DirIndex(addr) > 0 ==>
                (ok <==> TableIndex(addr) + pageCount < ENTRIES &&
                         !TableFaults(old(dir), DirIndex(addr), old(pageAllocator.Used()), pageAllocator.pagesCount, Base()))
      ensures DirIndex(addr) > 0 ==> live == if ok then old(live)[s := pageCount] else old(live)
      ensures DirIndex(addr) > 0 && ok ==> (Valid() <==> TableAvailable(old(dir), DirIndex(addr),
                                              old(pageAllocator.Used()), pageAllocator.pagesCount))
      ensures pageAllocator.pagesCount == old(pageAllocator.pagesCount)
    {
      hide ManagerOk, Spare, BitmapOk, Marked, Placement, Flags, HasTable, DirIndex, TableIndex, Reachable;
      ghost var base := Base();
      DirRange(addr);
      ManagerFacts(pageAllocator.Used(), base, pageAllocator.pagesCount, dir, tables, blocks, live);
      var d, t := DirIndex(addr), TableIndex(addr);
      if d > 0 {
        Decompose(addr, base + s);
      }
      ghost var kept := TableAvailable(dir, d, pageAllocator.Used(), pageAllocator.pagesCount);
      if !dir[d].present {
        var installed := InstallTable(d, s, pageCount);
        if !installed {
          return false;
        }
      }
      if !dir[d].fourMbPages {
        HasTableAt(dir, d);
        if kept {
          BlockGiven(pageAllocator.Used(), base, pageAllocator.pagesCount, dir, tables, blocks, live, s, pageCount);
        }
        if !(pageCount < ENTRIES - t) {
          return false;
        }
        if kept {
          TableOf(pageAllocator.Used(), base, pageAllocator.pagesCount, dir, tables, blocks, live, d);
        } else {
          FrameZero(dir, tables);
        }
        MapTableEntries(dir[d].address, t, addr, pageCount);
        live := live[s := pageCount];
        if !kept {
          TableAtZero(pageAllocator.Used(), base, pageAllocator.pagesCount, dir, tables, blocks, live, d);
        }
      }
      return true;
    }

    /**
      alloc_pages. The lowest free run of pages is given out, or null. Outside the first 4 MB it panics exactly
      when the block reaches the last entry of its page table or the page for a missing table is found outside the
      first 4 MB too, where clearing it faults; otherwise the invariant survives exactly when that page is found.
      The assertion that no entry is present never fires.
     */
    method AllocPages(amount: nat) returns (r: Outcome<int>)
      requires Valid()
      modifies this, pageAllocator, pageAllocator.bitmapData
      ensures match Placement(old(pageAllocator.Used()), pageAllocator.pagesCount, amount)
              case None => r == Ok(NULL) && Valid() && live == old(live)
              case Some(s) =>
                var addr := old(pageAllocator.begin) + s * PAGE_SIZE;
                if DirIndex(addr) == 0 then r == Ok(addr) && Valid() && live == old(live)[s := amount]
                else if || TableIndex(addr) + amount >= ENTRIES
                        || TableFaults(old(dir), DirIndex(addr), Marked(old(pageAllocator.Used()), s, amount, true),
                                       pageAllocator.pagesCount, old(Base()))
                then r == Panic
                else
                  && r == Ok(addr) && live == old(live)[s := amount]
                  && (Valid() <==> TableAvailable(old(dir), DirIndex(addr),
                                     Marked(old(pageAllocator.Used()), s, amount, true), pageAllocator.pagesCount))
    {
      hide ManagerOk, Spare, BitmapOk, Marked, Placement, Flags, HasTable, DirIndex, TableIndex, TableAvailable, Reachable;
      AllocatorFacts(pageAllocator);
      ghost var used, base, dir0 := pageAllocator.Used(), Base(), dir;
      ghost var place := Placement(used, pageAllocator.pagesCount, amount);
      ghost var s := if place.Some? then place.value else 0;
      var given := pageAllocator.Alloc(amount);
      if place.Some? {
        BlockTaken(used, base, pageAllocator.pagesCount, dir, tables, blocks, live, amount);
        blocks := blocks[s := amount];
        SpareNow(base, dir, blocks, live, s, amount);
      } else {
        NullIsLow();
      }
      var ok := PagingMap(given, amount, s);
      if !ok {
        return Panic;
      }
      if place.Some? && DirIndex(given) == 0 {
        LowGiven(pageAllocator.Used(), base, pageAllocator.pagesCount, dir, tables, blocks, live, s, amount, given);
        live := live[s := amount];
      }
      return Ok(given);
    }

    /** The loop of paging_unmap, with the test for a present entry that its message and paging_map intend. */
    method UnmapTableEntries(a: int, t: nat, count: nat)
      requires |dir| == ENTRIES && 0 <= a < ENTRIES * ENTRIES && Reachable(dir, tables, a)
      requires a in tables && t + count <= ENTRIES
      requires forall k :: t <= k < t + count ==> tables[a][k].present
      modifies this`tables
      ensures tables == old(tables)[a := UnmapEntries(old(tables)[a], t, count)]
    {
      ghost var before := tables[a];
      for i := 0 to count
        invariant a in tables && tables == old(tables)[a := tables[a]]
        invariant tables[a] == UnmapEntries(before, t, i)
      {
        assert tables[a][t + i].present;
        var table: Table := tables[a][t + i := tables[a][t + i].(present := false)];
        assert table == UnmapEntries(before, t, i + 1);
        tables := tables[a := table];
      }
    }

    /**
      free_pages of a block that alloc_pages gave: the block leaves, and with it its mapping. An address outside
      the managed pages panics; no other assertion fires.
     */
    method FreePages(addr: nat, count: nat, ghost s: int) returns (r: Outcome<()>)
      requires Valid() && addr < TWO_32
      requires pageAllocator.Belongs(addr) ==>
                 addr == pageAllocator.begin + PAGE_SIZE * s && s in live && live[s] == count
      modifies this, pageAllocator, pageAllocator.bitmapData
      ensures Valid()
      ensures r.Panic? <==> !old(pageAllocator.Belongs(addr))
      ensures r.Panic? ==> live == old(live) && tables == old(tables)
      ensures r.Ok? ==> live == old(live) - {s} && blocks == old(blocks) - {s}
      ensures r.Ok? ==> pageAllocator.Used() == Marked(old(pageAllocator.Used()), s, count, false)
    {
      if !pageAllocator.Belongs(addr) {
        return Panic;
      }
      ReturnBlock(addr, count, s);
      return Ok(());
    }

    /** free_pages past its assertion. */
    method ReturnBlock(addr: nat, count: nat, ghost s: int)
      requires Valid() && addr < TWO_32 && pageAllocator.Belongs(addr)
      requires addr == pageAllocator.begin + PAGE_SIZE * s && s in live && live[s] == count
      modifies this, pageAllocator, pageAllocator.bitmapData
      ensures Valid()
      ensures live == old(live) - {s} && blocks == old(blocks) - {s}
      ensures pageAllocator.Used() == Marked(old(pageAllocator.Used()), s, count, false)
    {
      hide ManagerOk, BitmapOk, Marked, Flags, UsedRun, Unmapped;
      AllocatorFacts(pageAllocator);
      PageOf(addr, pageAllocator.begin, s);
      BlockReturned(pageAllocator.Used(), Base(), pageAllocator.pagesCount, dir, tables, blocks, live, s);
      PagingUnmap(addr, count, s);
      var freed := pageAllocator.Free(addr, count);
      blocks, live := blocks - {s}, live - {s};
    }

    /** paging_unmap of a live block: its entries are all present and are cleared, but not in the first 4 MB. */
    method PagingUnmap(addr: nat, count: nat, ghost s: int)
      requires Valid() && s in live && live[s] == count && addr == PAGE_SIZE * (Base() + s) && addr < TWO_32
      modifies this`tables
      ensures tables == Unmapped(old(tables), dir, Base(), s, count)
    {
      hide ManagerOk, BitmapOk, Flags, DirIndex, TableIndex, UnmapEntries, Reachable;
      DirRange(addr);
      Decompose(addr, Base() + s);
      ManagerFacts(pageAllocator.Used(), Base(), pageAllocator.pagesCount, dir, tables, blocks, live);
      BlockReturned(pageAllocator.Used(), Base(), pageAllocator.pagesCount, dir, tables, blocks, live, s);
      var d, t := DirIndex(addr), TableIndex(addr);
      assert dir[d].present;
      if !dir[d].fourMbPages {
        assert count < ENTRIES - t;
        TableOf(pageAllocator.Used(), Base(), pageAllocator.pagesCount, dir, tables, blocks, live, d);
        UnmapTableEntries(dir[d].address, t, count);
      }
    }
  }

  lemma AllocatorFacts(a: BitmapAllocator)
    requires a.Valid()
    ensures 0 < a.begin && a.begin % PAGE_SIZE == 0 && a.begin + a.pagesCount * PAGE_SIZE <= TWO_32
    ensures a.begin == PAGE_SIZE * (a.begin / PAGE_SIZE)
    ensures 0 < a.begin / PAGE_SIZE && a.begin / PAGE_SIZE + a.pagesCount <= ENTRIES * ENTRIES
    ensures a.pagesCount <= |a.Used()|
  {
  }

  lemma ManagerFacts(used: seq<bool>, base: int, pagesCount: nat, dir: seq<DirEntry>, tables: map<int, Table>,
                     blocks: map<int, int>, live: map<int, int>)
    requires ManagerOk(used, base, pagesCount, dir, tables, blocks, live)
    ensures |dir| == ENTRIES && dir[0] == DirEntry(true, true, 0)
    ensures forall d :: 0 < d < ENTRIES && dir[d].present ==> !dir[d].fourMbPages && dir[d].address in tables
  {
    forall d | 0 < d < ENTRIES && dir[d].present ensures !dir[d].fourMbPages && dir[d].address in tables {
      assert HasTable(dir, d);
    }
  }

  lemma TableOf(used: seq<bool>, base: int, pagesCount: nat, dir: seq<DirEntry>, tables: map<int, Table>,
                blocks: map<int, int>, live: map<int, int>, d: nat)
    requires ManagerOk(used, base, pagesCount, dir, tables, blocks, live) && d < |dir|
    requires dir[d].present && !dir[d].fourMbPages
    ensures |dir| == ENTRIES && 0 <= dir[d].address < ENTRIES && Reachable(dir, tables, dir[d].address)
  {
    TableReachable(dir, tables, base, pagesCount, blocks, live, d);
  }

  lemma HasTableAt(dir: seq<DirEntry>, d: nat)
    requires 0 < d < |dir| && dir[d].present
    ensures HasTable(dir, d)
  {
  }

  lemma FreshConsistent(used: seq<bool>, pagesCount: nat)
    requires 2 <= pagesCount <= |used|
    requires forall p :: 0 <= p < |used| ==> !used[p]
    ensures Consistent(Pages(Marked(used, 0, 1, true), map[0 := 1]), pagesCount)
  {
    var blocks := map[0 := 1];
    assert Inside(blocks, 0, 0);
  }
}
