/**
  The kernel's page directory and page tables as core/mmanager.cpp keeps them: an identity mapping of the pages
  that are given out. Pages are numbered by frame, address / 4096; a directory entry covers 1024 frames.
 */
module PageTables {
  import opened Machine
  import opened PageRuns
  import opened PageBlocks

  const ENTRIES := 1024

  datatype DirEntry = DirEntry(present: bool, fourMbPages: bool, address: int)

  datatype TableEntry = TableEntry(present: bool, address: int)

  type Table = t: seq<TableEntry> | |t| == ENTRIES witness seq(ENTRIES, _ => TableEntry(false, 0))

  const EMPTY_TABLE: Table := seq(ENTRIES, _ => TableEntry(false, 0))

  /** What the processor translates frame f to. */
  function Translate(dir: seq<DirEntry>, tables: map<int, Table>, f: nat): Option<int>
    requires |dir| == ENTRIES && f < ENTRIES * ENTRIES
  {
    var d, t := f / ENTRIES, f % ENTRIES;
    if !dir[d].present then None
    else if dir[d].fourMbPages then Some(dir[d].address * ENTRIES + t)
    else if dir[d].address !in tables || !tables[dir[d].address][t].present then None
    else Some(tables[dir[d].address][t].address)
  }

  function MapEntries(table: Table, t: nat, f: int, n: nat): (r: Table)
    requires t + n <= ENTRIES
    ensures forall k :: 0 <= k < ENTRIES ==> r[k] == if t <= k < t + n then TableEntry(true, f + k - t) else table[k]
  {
    seq(ENTRIES, k requires 0 <= k < ENTRIES => if t <= k < t + n then TableEntry(true, f + k - t) else table[k])
  }

  function UnmapEntries(table: Table, t: nat, n: nat): (r: Table)
    requires t + n <= ENTRIES
    ensures forall k :: 0 <= k < ENTRIES ==> r[k] == if t <= k < t + n then table[k].(present := false) else table[k]
  {
    seq(ENTRIES, k requires 0 <= k < ENTRIES => if t <= k < t + n then table[k].(present := false) else table[k])
  }

  // ---- the invariant

  /** A directory entry that uses a page table. */
  predicate HasTable(dir: seq<DirEntry>, d: int) {
    0 < d < |dir| && dir[d].present
  }

  /**
    The first 4 MB are one large page. Every table in use is a page of its own that no caller was given, and lies in
    the first 4 MB, where the kernel can reach it.
   */
  ghost predicate TablesOk(dir: seq<DirEntry>, tables: map<int, Table>, base: int, blocks: map<int, int>, live: map<int, int>) {
    && |dir| == ENTRIES && dir[0] == DirEntry(true, true, 0)
    && (forall d :: HasTable(dir, d) ==>
          && !dir[d].fourMbPages && dir[d].address in tables && dir[d].address < ENTRIES
          && dir[d].address - base in blocks && dir[d].address - base !in live)
    && (forall d, e :: HasTable(dir, d) && HasTable(dir, e) && d != e ==> dir[d].address != dir[e].address)
  }

  /** Entry t of the table of directory entry d is present. */
  predicate PresentAt(dir: seq<DirEntry>, tables: map<int, Table>, d: int, t: int) {
    HasTable(dir, d) && dir[d].address in tables && 0 <= t < ENTRIES && tables[dir[d].address][t].present
  }

  predicate Holds(base: int, live: map<int, int>, p: int, s: int) {
    Inside(live, s, p) && base + s >= ENTRIES && (base + s) / ENTRIES == (base + p) / ENTRIES
  }

  /** Page p is in a live block that starts in the same 4 MB as p, outside the first. */
  ghost predicate InLive(base: int, live: map<int, int>, p: int) {
    exists s :: Holds(base, live, p, s)
  }

  /** A present entry is an identity mapping of a page in a live block. */
  ghost predicate IdentityOk(dir: seq<DirEntry>, tables: map<int, Table>, base: int, live: map<int, int>) {
    forall d, t :: PresentAt(dir, tables, d, t) ==>
      tables[dir[d].address][t].address == ENTRIES * d + t && InLive(base, live, ENTRIES * d + t - base)
  }

  /** The block at page s, which starts above the first 4 MB, is mapped. */
  ghost predicate Mapped(dir: seq<DirEntry>, tables: map<int, Table>, base: int, s: int, n: int) {
    var d, t := (base + s) / ENTRIES, (base + s) % ENTRIES;
    t + n < ENTRIES && HasTable(dir, d) && forall k :: t <= k < t + n ==> PresentAt(dir, tables, d, k)
  }

  ghost predicate LiveMapped(dir: seq<DirEntry>, tables: map<int, Table>, base: int, live: map<int, int>) {
    forall s :: s in live && base + s >= ENTRIES ==> Mapped(dir, tables, base, s, live[s])
  }

  /** blocks: everything the page allocator gave out; live: the part of it that callers hold. */
  ghost predicate PagingOk(dir: seq<DirEntry>, tables: map<int, Table>, base: int, pagesCount: nat, blocks: map<int, int>,
                     live: map<int, int>)
  {
    && 0 < base < ENTRIES && base + pagesCount <= ENTRIES * ENTRIES
    && Placed(blocks, pagesCount) && Disjoint(blocks)
    && (forall s :: s in live ==> s in blocks && blocks[s] == live[s])
    && TablesOk(dir, tables, base, blocks, live)
    && IdentityOk(dir, tables, base, live)
    && LiveMapped(dir, tables, base, live)
  }

  /** Page s is not the page of a table in use. */
  ghost predicate NoTableAt(dir: seq<DirEntry>, base: int, s: int) {
    forall d :: HasTable(dir, d) ==> dir[d].address - base != s
  }

  // ---- what the mapping means

  ghost predicate InSome(blocks: map<int, int>, p: int) {
    exists s :: Inside(blocks, s, p)
  }

  lemma DirectoryIndex(d: int, t: int)
    requires 0 <= t < ENTRIES
    ensures (ENTRIES * d + t) / ENTRIES == d && (ENTRIES * d + t) % ENTRIES == t
  {
  }

  /** Translation never leads to another frame, and outside the first 4 MB only to pages in use. */
  lemma TranslationIsIdentity(dir: seq<DirEntry>, tables: map<int, Table>, base: int, pagesCount: nat,
                              blocks: map<int, int>, live: map<int, int>, f: nat)
    requires PagingOk(dir, tables, base, pagesCount, blocks, live) && f < ENTRIES * ENTRIES
    requires Translate(dir, tables, f).Some?
    ensures Translate(dir, tables, f).value == f
    ensures ENTRIES <= f ==> InSome(blocks, f - base)
  {
    var d, t := f / ENTRIES, f % ENTRIES;
    if ENTRIES <= f {
      assert PresentAt(dir, tables, d, t);
      assert InLive(base, live, f - base);
      var s :| Holds(base, live, f - base, s);
      assert Inside(blocks, s, f - base);
    }
  }

  /**
    A page of a live block translates to itself exactly when it lies in the first 4 MB or its block starts above
    them. A block that starts in the first 4 MB and runs out of them is not mapped where it runs out.
   */
  lemma LiveTranslation(dir: seq<DirEntry>, tables: map<int, Table>, base: int, pagesCount: nat,
                        blocks: map<int, int>, live: map<int, int>, s: int, f: nat)
    requires PagingOk(dir, tables, base, pagesCount, blocks, live)
    requires Inside(live, s, f - base) && f < ENTRIES * ENTRIES
    ensures Translate(dir, tables, f) == Some(f as int) <==> f < ENTRIES || ENTRIES <= base + s
  {
    if ENTRIES <= base + s {
      LiveBlockTranslates(dir, tables, base, pagesCount, blocks, live, s, f);
    } else if ENTRIES <= f {
      NotInLive(base, blocks, live, s, f - base);
      assert !PresentAt(dir, tables, f / ENTRIES, f % ENTRIES);
    }
  }

  lemma NotInLive(base: int, blocks: map<int, int>, live: map<int, int>, s: int, p: int)
    requires Disjoint(blocks) && forall r :: r in live ==> r in blocks && blocks[r] == live[r]
    requires Inside(blocks, s, p) && (s !in live || base + s < ENTRIES)
    ensures !InLive(base, live, p)
  {
    forall r ensures !Holds(base, live, p, r) {
      if Inside(blocks, r, p) {
        OwnerIsUnique(blocks, r, s, p);
      }
    }
  }

  lemma LiveBlockTranslates(dir: seq<DirEntry>, tables: map<int, Table>, base: int, pagesCount: nat,
                            blocks: map<int, int>, live: map<int, int>, s: int, f: nat)
    requires PagingOk(dir, tables, base, pagesCount, blocks, live)
    requires Inside(live, s, f - base) && f < ENTRIES * ENTRIES && ENTRIES <= base + s
    ensures Translate(dir, tables, f) == Some(f as int)
  {
    assert Mapped(dir, tables, base, s, live[s]);
    var d, t := (base + s) / ENTRIES, (base + s) % ENTRIES;
    DirectoryIndex(d, t + (f - base - s));
    assert PresentAt(dir, tables, d, t + (f - base - s));
  }

  lemma OwnerIsUnique(blocks: map<int, int>, r: int, s: int, p: int)
    requires Disjoint(blocks) && Inside(blocks, r, p) && Inside(blocks, s, p)
    ensures r == s
  {
  }

  const INITIAL_DIR: seq<DirEntry> :=
    seq(ENTRIES, d => if d == 0 then DirEntry(true, true, 0) else DirEntry(false, false, 0))

  /** Thirty pages given out from frame 1010 on, as alloc_pages leaves them: the last sixteen are unmapped. */
  lemma StraddlingBlock()
    ensures var blocks, live := map[0 := 1, 10 := 30], map[10 := 30];
            PagingOk(INITIAL_DIR, map[], 1000, 100, blocks, live) && Inside(live, 10, 1030 - 1000)
    ensures Translate(INITIAL_DIR, map[], 1023) == Some(1023) && Translate(INITIAL_DIR, map[], 1030) == None
  {
    assert forall d :: !HasTable(INITIAL_DIR, d);
    assert 1030 / ENTRIES == 1;
  }

  /** The assertions of paging_unmap as written: the directory entry present, room in the table, no entry present. */
  predicate UnmapPanicsAsWritten(dir: seq<DirEntry>, tables: map<int, Table>, f: nat, n: nat)
    requires |dir| == ENTRIES && f < ENTRIES * ENTRIES
  {
    var d, t := f / ENTRIES, f % ENTRIES;
    || !dir[d].present
    || (!dir[d].fourMbPages && (n >= ENTRIES - t || exists k :: t <= k < t + n && PresentAt(dir, tables, d, k)))
  }

  /** As written, free_pages of a live block panics exactly when the block starts above the first 4 MB. */
  lemma UnmapAsWritten(dir: seq<DirEntry>, tables: map<int, Table>, base: int, pagesCount: nat, blocks: map<int, int>,
                       live: map<int, int>, s: int)
    requires PagingOk(dir, tables, base, pagesCount, blocks, live) && s in live
    ensures 0 <= base + s < ENTRIES * ENTRIES && 0 < live[s]
    ensures UnmapPanicsAsWritten(dir, tables, base + s, live[s]) <==> base + s >= ENTRIES
  {
    assert s in blocks;
    if base + s >= ENTRIES {
      assert Mapped(dir, tables, base, s, live[s]);
      assert PresentAt(dir, tables, (base + s) / ENTRIES, (base + s) % ENTRIES);
    }
  }

  // ---- what the kernel itself can reach

  /** The kernel can read and write frame f at its own address. */
  predicate Reachable(dir: seq<DirEntry>, tables: map<int, Table>, f: nat)
    requires |dir| == ENTRIES && f < ENTRIES * ENTRIES
  {
    Translate(dir, tables, f) == Some(f as int)
  }

  /** The table of a directory entry is reachable, so its entries can be written. */
  lemma TableReachable(dir: seq<DirEntry>, tables: map<int, Table>, base: int, pagesCount: nat, blocks: map<int, int>,
                       live: map<int, int>, d: nat)
    requires PagingOk(dir, tables, base, pagesCount, blocks, live) && HasTable(dir, d)
    ensures 0 <= dir[d].address < ENTRIES && Reachable(dir, tables, dir[d].address)
  {
    assert dir[d].address - base in blocks;
  }

  /** A page that is in no live block, so a page that was just given out, is reachable exactly in the first 4 MB. */
  lemma FreshReachable(dir: seq<DirEntry>, tables: map<int, Table>, base: int, pagesCount: nat, blocks: map<int, int>,
                       live: map<int, int>, p: int)
    requires PagingOk(dir, tables, base, pagesCount, blocks, live) && p in blocks && p !in live
    ensures 0 <= base + p < ENTRIES * ENTRIES
    ensures Reachable(dir, tables, base + p) <==> base + p < ENTRIES
  {
    if base + p >= ENTRIES {
      assert Inside(blocks, p, p);
      NotInLive(base, blocks, live, p, p);
      assert !PresentAt(dir, tables, (base + p) / ENTRIES, (base + p) % ENTRIES);
    }
  }

  /** The directory's own page, frame base, can be reached once paging is on exactly when it is in the first 4 MB. */
  lemma DirectoryReachable(base: nat)
    requires base < ENTRIES * ENTRIES
    ensures Reachable(INITIAL_DIR, map[], base) <==> base < ENTRIES
  {
  }

  // ---- what each step keeps

  /** The page allocator gives out a block that was in no other. */
  lemma GrowOk(dir: seq<DirEntry>, tables: map<int, Table>, base: int, pagesCount: nat, blocks: map<int, int>,
               live: map<int, int>, s: int, n: int)
    requires PagingOk(dir, tables, base, pagesCount, blocks, live)
    requires s !in blocks && Placed(blocks[s := n], pagesCount) && Disjoint(blocks[s := n])
    ensures PagingOk(dir, tables, base, pagesCount, blocks[s := n], live) && NoTableAt(dir, base, s)
  {
  }

  /** A cleared table in a page of its own is hooked into a directory entry that was not present. */
  lemma InstallOk(dir: seq<DirEntry>, tables: map<int, Table>, base: int, pagesCount: nat, blocks: map<int, int>,
                  live: map<int, int>, d: nat, p: int, s: int)
    requires PagingOk(dir, tables, base, pagesCount, blocks, live)
    requires d < ENTRIES && !dir[d].present && p in blocks && p !in live && NoTableAt(dir, base, p)
    requires NoTableAt(dir, base, s) && s != p
    requires 0 <= base + p < ENTRIES * ENTRIES && Reachable(dir, tables, base + p)
    ensures var dir' := dir[d := DirEntry(true, false, base + p)];
            PagingOk(dir', tables[base + p := EMPTY_TABLE], base, pagesCount, blocks, live) && NoTableAt(dir', base, s)
  {
    var dir', tables' := dir[d := DirEntry(true, false, base + p)], tables[base + p := EMPTY_TABLE];
    FreshReachable(dir, tables, base, pagesCount, blocks, live, p);
    InstallPresent(dir, tables, base, p, d);
    PresentKept(dir, tables, dir', tables', base, live);
    hide LiveMapped, PresentAt;
  }

  lemma InstallPresent(dir: seq<DirEntry>, tables: map<int, Table>, base: int, p: int, d: nat)
    requires d < |dir| == ENTRIES && !dir[d].present && NoTableAt(dir, base, p)
    ensures var dir', tables' := dir[d := DirEntry(true, false, base + p)], tables[base + p := EMPTY_TABLE];
            SamePresent(dir, tables, dir', tables')
  {
  }

  /** The present entries and their addresses are the same before and after. */
  ghost predicate SamePresent(dir: seq<DirEntry>, tables: map<int, Table>, dir': seq<DirEntry>, tables': map<int, Table>) {
    && |dir'| == |dir|
    && (forall d :: HasTable(dir, d) ==> HasTable(dir', d))
    && (forall d, t :: PresentAt(dir', tables', d, t) <==> PresentAt(dir, tables, d, t))
    && (forall d, t :: PresentAt(dir, tables, d, t) && PresentAt(dir', tables', d, t) ==>
          tables'[dir'[d].address][t].address == tables[dir[d].address][t].address)
  }

  lemma PresentKept(dir: seq<DirEntry>, tables: map<int, Table>, dir': seq<DirEntry>, tables': map<int, Table>,
                    base: int, live: map<int, int>)
    requires SamePresent(dir, tables, dir', tables')
    requires IdentityOk(dir, tables, base, live) && LiveMapped(dir, tables, base, live)
    ensures IdentityOk(dir', tables', base, live) && LiveMapped(dir', tables', base, live)
  {
    hide PresentAt, InLive;
    forall r | r in live && base + r >= ENTRIES ensures Mapped(dir', tables', base, r, live[r]) {
      assert Mapped(dir, tables, base, r, live[r]);
    }
  }

  /** A block that starts in the first 4 MB goes to its caller as it is. */
  lemma GiveLowOk(dir: seq<DirEntry>, tables: map<int, Table>, base: int, pagesCount: nat, blocks: map<int, int>,
                  live: map<int, int>, s: int)
    requires PagingOk(dir, tables, base, pagesCount, blocks, live)
    requires s in blocks && s !in live && NoTableAt(dir, base, s) && base + s < ENTRIES
    ensures PagingOk(dir, tables, base, pagesCount, blocks, live[s := blocks[s]])
  {
    LiveGrows(base, live, s, blocks[s]);
  }

  lemma LiveGrows(base: int, live: map<int, int>, s: int, n: int)
    requires s !in live
    ensures forall p :: InLive(base, live, p) ==> InLive(base, live[s := n], p)
  {
    forall p | InLive(base, live, p) ensures InLive(base, live[s := n], p) {
      var r :| Holds(base, live, p, r);
      assert Holds(base, live[s := n], p, r);
    }
  }

  /** None of the entries a fresh block needs is present: the assertion of paging_map does not fire. */
  lemma FreshEntriesAbsent(dir: seq<DirEntry>, tables: map<int, Table>, base: int, pagesCount: nat,
                           blocks: map<int, int>, live: map<int, int>, s: int)
    requires PagingOk(dir, tables, base, pagesCount, blocks, live)
    requires s in blocks && s !in live && base + s >= ENTRIES
    requires (base + s) % ENTRIES + blocks[s] < ENTRIES
    ensures var d, t := (base + s) / ENTRIES, (base + s) % ENTRIES;
            forall k :: t <= k < t + blocks[s] ==> !PresentAt(dir, tables, d, k)
  {
    var d, t := (base + s) / ENTRIES, (base + s) % ENTRIES;
    forall k | t <= k < t + blocks[s] ensures !PresentAt(dir, tables, d, k) {
      assert Inside(blocks, s, ENTRIES * d + k - base);
      NotInLive(base, blocks, live, s, ENTRIES * d + k - base);
    }
  }

  /** tables' is tables with entries t to t + n of directory entry d identity mapped. */
  ghost predicate Entered(dir: seq<DirEntry>, tables: map<int, Table>, tables': map<int, Table>, d: int, t: int, n: int) {
    && (forall e, k :: PresentAt(dir, tables', e, k) <==>
          PresentAt(dir, tables, e, k) || (e == d && t <= k < t + n && 0 <= k < ENTRIES))
    && (forall e, k :: PresentAt(dir, tables', e, k) ==>
          if e == d && t <= k < t + n then tables'[dir[e].address][k].address == ENTRIES * e + k
          else dir[e].address in tables && tables'[dir[e].address][k].address == tables[dir[e].address][k].address)
  }

  lemma MapEnters(dir: seq<DirEntry>, tables: map<int, Table>, base: int, blocks: map<int, int>, live: map<int, int>,
                  d: int, t: nat, n: nat)
    requires TablesOk(dir, tables, base, blocks, live) && HasTable(dir, d) && t + n <= ENTRIES
    ensures var a := dir[d].address; Entered(dir, tables, tables[a := MapEntries(tables[a], t, ENTRIES * d + t, n)], d, t, n)
  {
  }

  lemma EnteredIdentity(dir: seq<DirEntry>, tables: map<int, Table>, tables': map<int, Table>, base: int,
                        live: map<int, int>, s: int, n: int)
    requires IdentityOk(dir, tables, base, live) && s !in live && base + s >= ENTRIES
    requires Entered(dir, tables, tables', (base + s) / ENTRIES, (base + s) % ENTRIES, n)
    ensures IdentityOk(dir, tables', base, live[s := n])
  {
    LiveGrows(base, live, s, n);
    hide InLive;
    forall e, k | PresentAt(dir, tables', e, k)
      ensures tables'[dir[e].address][k].address == ENTRIES * e + k && InLive(base, live[s := n], ENTRIES * e + k - base)
    {
      if e == (base + s) / ENTRIES && (base + s) % ENTRIES <= k < (base + s) % ENTRIES + n {
        EntryInLive(base, live, s, n, e, k);
      } else {
        assert PresentAt(dir, tables, e, k);
      }
    }
  }

  lemma EntryInLive(base: int, live: map<int, int>, s: int, n: int, e: int, k: int)
    requires base + s >= ENTRIES && 0 <= k < ENTRIES
    requires e == (base + s) / ENTRIES && (base + s) % ENTRIES <= k < (base + s) % ENTRIES + n
    ensures InLive(base, live[s := n], ENTRIES * e + k - base)
  {
    DirectoryIndex(e, k);
    assert Holds(base, live[s := n], ENTRIES * e + k - base, s);
  }

  lemma EnteredMapped(dir: seq<DirEntry>, tables: map<int, Table>, tables': map<int, Table>, base: int,
                      live: map<int, int>, s: int, n: int)
    requires LiveMapped(dir, tables, base, live) && base + s >= ENTRIES && HasTable(dir, (base + s) / ENTRIES)
    requires (base + s) % ENTRIES + n < ENTRIES
    requires Entered(dir, tables, tables', (base + s) / ENTRIES, (base + s) % ENTRIES, n)
    ensures LiveMapped(dir, tables', base, live[s := n])
  {
    hide PresentAt;
    var live' := live[s := n];
    forall r | r in live' && base + r >= ENTRIES ensures Mapped(dir, tables', base, r, live'[r]) {
      assert r != s ==> Mapped(dir, tables, base, r, live[r]);
    }
  }

  /** A block above the first 4 MB that fits its table goes to its caller mapped. */
  lemma MapOk(dir: seq<DirEntry>, tables: map<int, Table>, base: int, pagesCount: nat, blocks: map<int, int>,
              live: map<int, int>, s: int)
    requires PagingOk(dir, tables, base, pagesCount, blocks, live)
    requires s in blocks && s !in live && NoTableAt(dir, base, s) && base + s >= ENTRIES
    requires var d, t := (base + s) / ENTRIES, (base + s) % ENTRIES; HasTable(dir, d) && t + blocks[s] < ENTRIES
    ensures var f, n := base + s, blocks[s];
            var a := dir[f / ENTRIES].address;
            PagingOk(dir, tables[a := MapEntries(tables[a], f % ENTRIES, f, n)], base, pagesCount, blocks, live[s := n])
  {
    var d, t, n := (base + s) / ENTRIES, (base + s) % ENTRIES, blocks[s];
    var a := dir[d].address;
    var tables' := tables[a := MapEntries(tables[a], t, base + s, n)];
    MapEnters(dir, tables, base, blocks, live, d, t, n);
    hide IdentityOk, LiveMapped, Entered, PresentAt;
    EnteredIdentity(dir, tables, tables', base, live, s, n);
    EnteredMapped(dir, tables, tables', base, live, s, n);
  }

  // ---- a block returned

  lemma LiveShrinks(base: int, live: map<int, int>, s: int, p: int)
    requires InLive(base, live, p) && (!Inside(live, s, p) || base + s < ENTRIES)
    ensures InLive(base, live - {s}, p)
  {
    var r :| Holds(base, live, p, r);
    assert Holds(base, live - {s}, p, r);
  }

  /** A block that starts in the first 4 MB comes back as it is. */
  lemma TakeLowOk(dir: seq<DirEntry>, tables: map<int, Table>, base: int, pagesCount: nat, blocks: map<int, int>,
                  live: map<int, int>, s: int)
    requires PagingOk(dir, tables, base, pagesCount, blocks, live)
    requires s in live && base + s < ENTRIES
    ensures PagingOk(dir, tables, base, pagesCount, blocks - {s}, live - {s})
  {
    forall d, t | PresentAt(dir, tables, d, t) ensures InLive(base, live - {s}, ENTRIES * d + t - base) {
      LiveShrinks(base, live, s, ENTRIES * d + t - base);
    }
    forall r | r in live - {s} && base + r >= ENTRIES ensures Mapped(dir, tables, base, r, live[r]) {
      assert Mapped(dir, tables, base, r, live[r]);
    }
  }

  /** tables' is tables without entries t to t + n of directory entry d. */
  ghost predicate Cleared(dir: seq<DirEntry>, tables: map<int, Table>, tables': map<int, Table>, d: int, t: int, n: int) {
    && (forall e, k :: PresentAt(dir, tables', e, k) <==> PresentAt(dir, tables, e, k) && !(e == d && t <= k < t + n))
    && (forall e, k :: PresentAt(dir, tables', e, k) ==>
          dir[e].address in tables && tables'[dir[e].address][k].address == tables[dir[e].address][k].address)
  }

  lemma UnmapClears(dir: seq<DirEntry>, tables: map<int, Table>, base: int, blocks: map<int, int>, live: map<int, int>,
                    d: int, t: nat, n: nat)
    requires TablesOk(dir, tables, base, blocks, live) && HasTable(dir, d) && t + n <= ENTRIES
    ensures var a := dir[d].address; Cleared(dir, tables, tables[a := UnmapEntries(tables[a], t, n)], d, t, n)
  {
  }

  lemma ClearedIdentity(dir: seq<DirEntry>, tables: map<int, Table>, tables': map<int, Table>, base: int,
                        live: map<int, int>, s: int)
    requires IdentityOk(dir, tables, base, live) && s in live && base + s >= ENTRIES
    requires Mapped(dir, tables, base, s, live[s])
    requires Cleared(dir, tables, tables', (base + s) / ENTRIES, (base + s) % ENTRIES, live[s])
    ensures IdentityOk(dir, tables', base, live - {s})
  {
    hide InLive;
    forall e, k | PresentAt(dir, tables', e, k)
      ensures tables'[dir[e].address][k].address == ENTRIES * e + k && InLive(base, live - {s}, ENTRIES * e + k - base)
    {
      assert PresentAt(dir, tables, e, k);
      OutsideBlock(base, s, live[s], e, k);
      LiveShrinks(base, live, s, ENTRIES * e + k - base);
    }
  }

  lemma ClearedMapped(dir: seq<DirEntry>, tables: map<int, Table>, tables': map<int, Table>, base: int,
                      blocks: map<int, int>, live: map<int, int>, s: int)
    requires Disjoint(blocks) && forall x :: x in live ==> x in blocks && blocks[x] == live[x]
    requires LiveMapped(dir, tables, base, live) && s in live && base + s >= ENTRIES
    requires Cleared(dir, tables, tables', (base + s) / ENTRIES, (base + s) % ENTRIES, live[s])
    ensures LiveMapped(dir, tables', base, live - {s})
  {
    hide PresentAt;
    forall r | r in live - {s} && base + r >= ENTRIES ensures Mapped(dir, tables', base, r, live[r]) {
      assert Mapped(dir, tables, base, r, live[r]);
      if (base + r) / ENTRIES == (base + s) / ENTRIES {
        MappedApart(base, blocks, live, r, s);
      }
    }
  }

  /** A mapped block comes back with its entries cleared. */
  lemma UnmapOk(dir: seq<DirEntry>, tables: map<int, Table>, base: int, pagesCount: nat, blocks: map<int, int>,
                live: map<int, int>, s: int)
    requires PagingOk(dir, tables, base, pagesCount, blocks, live)
    requires s in live && base + s >= ENTRIES
    ensures Mapped(dir, tables, base, s, live[s])
    ensures var f := base + s;
            var a := dir[f / ENTRIES].address;
            PagingOk(dir, tables[a := UnmapEntries(tables[a], f % ENTRIES, live[s])], base, pagesCount,
                     blocks - {s}, live - {s})
  {
    var d, t := (base + s) / ENTRIES, (base + s) % ENTRIES;
    assert Mapped(dir, tables, base, s, live[s]);
    var a := dir[d].address;
    assert live[s] > 0;
    var tables' := tables[a := UnmapEntries(tables[a], t, live[s])];
    UnmapClears(dir, tables, base, blocks, live, d, t, live[s]);
    ClearedIdentity(dir, tables, tables', base, live, s);
    ClearedMapped(dir, tables, tables', base, blocks, live, s);
    hide IdentityOk, LiveMapped, Cleared;
  }

  lemma OutsideBlock(base: int, s: int, n: int, e: int, k: int)
    requires base + s >= 0 && 0 <= k < ENTRIES && (base + s) % ENTRIES + n < ENTRIES
    requires !(e == (base + s) / ENTRIES && (base + s) % ENTRIES <= k < (base + s) % ENTRIES + n)
    ensures !(s <= ENTRIES * e + k - base < s + n)
  {
  }

  /** Two mapped blocks use different entries. */
  lemma MappedApart(base: int, blocks: map<int, int>, live: map<int, int>, r: int, s: int)
    requires Disjoint(blocks) && forall x :: x in live ==> x in blocks && blocks[x] == live[x]
    requires r in live && s in live && r != s && base + r >= 0 && base + s >= 0
    requires (base + r) / ENTRIES == (base + s) / ENTRIES
    ensures (base + r) % ENTRIES + live[r] <= (base + s) % ENTRIES || (base + s) % ENTRIES + live[s] <= (base + r) % ENTRIES
  {
  }
}
