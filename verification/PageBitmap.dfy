/**
  The physical page allocator of core/bitmap_allocator.cpp: one bit per page, scanned a byte at a time with
  count-trailing-zeros shifts, whole-byte skips and a hint to the first byte that is not full.
 */
module PageBitmap {
  import opened Machine
  import opened Bytes
  import opened PageRuns

  const PAGE_SIZE := 4096
  const NULL := 0

  function PageUsed(bytes: seq<bv8>, p: nat): bool
    requires p < 8 * |bytes|
  {
    Bit(bytes[p / 8], p % 8)
  }

  /** The page flags a bitmap stands for. */
  function Flags(bytes: seq<bv8>): (used: seq<bool>)
    ensures |used| == 8 * |bytes|
    ensures forall p :: 0 <= p < |used| ==> used[p] == PageUsed(bytes, p)
  {
    seq(8 * |bytes|, p requires 0 <= p < 8 * |bytes| => PageUsed(bytes, p))
  }

  lemma FlagAt(bytes: seq<bv8>, i: nat, j: nat)
    requires i < |bytes| && j < 8
    ensures Flags(bytes)[8 * i + j] == Bit(bytes[i], j)
  {
    assert (8 * i + j) / 8 == i && (8 * i + j) % 8 == j;
  }

  lemma FlagSet(bytes: seq<bv8>, i: nat, j: nat, b: bv8, v: bool)
    requires i < |bytes| && j < 8
    requires forall k :: 0 <= k < 8 ==> Bit(b, k) == if k == j then v else Bit(bytes[i], k)
    ensures Flags(bytes[i := b]) == Flags(bytes)[8 * i + j := v]
  {
    hide Bit;
    var f, g := Flags(bytes[i := b]), Flags(bytes)[8 * i + j := v];
    forall p | 0 <= p < |f| ensures f[p] == g[p] {
      assert p == 8 * (p / 8) + p % 8;
      FlagAt(bytes, p / 8, p % 8);
      FlagAt(bytes[i := b], p / 8, p % 8);
    }
  }

  /** A bitmap byte with flag j set or cleared. */
  function MarkedByte(b: bv8, j: nat, v: bool): bv8
    requires j < 8
  {
    if v then b | (1 << j) else b & !(1 << j)
  }

  lemma MarkedByteBit(b: bv8, j: nat, v: bool, k: nat)
    requires j < 8 && k < 8
    ensures Bit(MarkedByte(b, j, v), k) == if k == j then v else Bit(b, k)
  {
    SetBit(b, j, k);
    ClearBit(b, j, k);
    hide Bit;
  }

  lemma MarkBit(bytes: seq<bv8>, i: nat, j: nat, v: bool)
    requires i < |bytes| && j < 8
    ensures Flags(bytes[i := MarkedByte(bytes[i], j, v)]) == Flags(bytes)[8 * i + j := v]
  {
    hide Bit, MarkedByte, Flags;
    var b := MarkedByte(bytes[i], j, v);
    forall k | 0 <= k < 8 ensures Bit(b, k) == if k == j then v else Bit(bytes[i], k) {
      MarkedByteBit(bytes[i], j, v, k);
    }
    FlagSet(bytes, i, j, b, v);
  }

  /** A full byte is eight used pages. */
  lemma FullByte(bytes: seq<bv8>, i: nat)
    requires i < |bytes| && bytes[i] == 0xFF
    ensures UsedRun(Flags(bytes), 8 * i, 8)
  {
    ByteByBits(bytes[i]);
    hide Bit;
    forall p | 8 * i <= p < 8 * i + 8 ensures Flags(bytes)[p] {
      FlagAt(bytes, i, p - 8 * i);
    }
  }

  // ---- the shifted byte of the scan

  /** cur holds the bits of byte i of the bitmap from position bit up. */
  ghost predicate Window(bytes: seq<bv8>, i: nat, bit: nat, cur: bv8)
    requires i < |bytes|
  {
    bit <= 8 && forall j :: 0 <= j < 8 ==> (Bit(cur, j) <==> Bit(bytes[i], bit + j))
  }

  lemma WindowWhole(bytes: seq<bv8>, i: nat)
    requires i < |bytes|
    ensures Window(bytes, i, 0, bytes[i])
  {
  }

  lemma WindowShift(bytes: seq<bv8>, i: nat, bit: nat, cur: bv8, k: nat)
    requires i < |bytes| && Window(bytes, i, bit, cur) && bit + k <= 8
    ensures Window(bytes, i, bit + k, cur >> k)
  {
    var shifted := cur >> k;
    forall j | 0 <= j < 8 ensures Bit(shifted, j) <==> Bit(bytes[i], bit + k + j) {
      ShiftBit(cur, k, j);
    }
  }

  lemma WindowTop(bytes: seq<bv8>, i: nat, bit: nat, cur: bv8)
    requires i < |bytes| && Window(bytes, i, bit, cur)
    ensures forall j :: 8 - bit <= j < 8 ==> !Bit(cur, j)
  {
    forall j | 8 - bit <= j < 8 ensures !Bit(cur, j) {
      BeyondByte(bytes[i], bit + j);
    }
  }

  lemma WindowFlags(bytes: seq<bv8>, i: nat, bit: nat, cur: bv8)
    requires i < |bytes| && Window(bytes, i, bit, cur)
    ensures forall p :: 8 * i + bit <= p < 8 * i + 8 ==> Flags(bytes)[p] == Bit(cur, p - 8 * i - bit)
  {
    hide Flags, Bit;
    forall p | 8 * i + bit <= p < 8 * i + 8 ensures Flags(bytes)[p] == Bit(cur, p - 8 * i - bit) {
      FlagAt(bytes, i, p - 8 * i);
      assert Bit(cur, p - 8 * i - bit) <==> Bit(bytes[i], bit + (p - 8 * i - bit));
    }
  }

  lemma BeyondByte(b: bv8, j: nat)
    requires 8 <= j
    ensures !Bit(b, j)
  {
  }

  lemma WindowOnes(bytes: seq<bv8>, i: nat, bit: nat, cur: bv8)
    requires i < |bytes| && Window(bytes, i, bit, cur)
    ensures !(cur as bv32) != 0
    ensures var k := Ctz(!(cur as bv32)); bit + k <= 8 && UsedRun(Flags(bytes), 8 * i + bit, k)
    ensures Ctz(!(cur as bv32)) == 0 ==> !Bit(cur, 0)
  {
    WindowFlags(bytes, i, bit, cur);
    WindowTop(bytes, i, bit, cur);
    TrailingOnes(cur);
    hide Flags, Bit, Ctz;
    assert bit > 0 ==> !Bit(cur, 8 - bit);
  }

  lemma WindowZeros(bytes: seq<bv8>, i: nat, bit: nat, cur: bv8)
    requires i < |bytes| && Window(bytes, i, bit, cur) && cur != 0 && !Bit(cur, 0)
    ensures var k := Ctz(cur as bv32); 0 < k && bit + k < 8 && FreeRun(Flags(bytes), 8 * i + bit, k)
  {
    WindowFlags(bytes, i, bit, cur);
    WindowTop(bytes, i, bit, cur);
    TrailingZeros(cur);
    hide Flags, Bit, Ctz;
  }

  lemma WindowEmpty(bytes: seq<bv8>, i: nat, bit: nat)
    requires i < |bytes| && Window(bytes, i, bit, 0)
    ensures FreeRun(Flags(bytes), 8 * i + bit, 8 - bit)
  {
    WindowFlags(bytes, i, bit, 0);
    ByteByBits(0);
    hide Flags, Bit;
  }

  /** The arithmetic part of the state: what is reserved, and where the pages lie. */
  ghost predicate BitmapOk(bytes: seq<bv8>, begin: int, pagesCount: nat, hint: nat, usedPages: int) {
    var used := Flags(bytes);
    && |bytes| == DivideRoundUp(pagesCount, 8)
    && 0 < begin && begin % PAGE_SIZE == 0 && begin + pagesCount * PAGE_SIZE <= TWO_32
    && (pagesCount > 0 ==> ClearFrom(used, pagesCount - 1))
    && hint <= |bytes| && UsedRun(used, 0, 8 * hint)
    && usedPages == Count(used)
  }

  lemma ClearBytes(bytes: seq<bv8>)
    requires forall i :: 0 <= i < |bytes| ==> bytes[i] == 0
    ensures forall p :: 0 <= p < |Flags(bytes)| ==> !Flags(bytes)[p]
  {
    ByteByBits(0);
    hide Bit;
    forall p | 0 <= p < |Flags(bytes)| ensures !Flags(bytes)[p] {
      assert bytes[p / 8] == 0;
    }
  }

  lemma InitOk(bytes: seq<bv8>, begin: int, pagesCount: nat)
    requires |bytes| == DivideRoundUp(pagesCount, 8) && forall i :: 0 <= i < |bytes| ==> bytes[i] == 0
    requires 0 < begin && begin % PAGE_SIZE == 0 && begin + pagesCount * PAGE_SIZE <= TWO_32
    ensures BitmapOk(bytes, begin, pagesCount, 0, 0)
    ensures forall p :: 0 <= p < |Flags(bytes)| ==> !Flags(bytes)[p]
  {
    ClearBytes(bytes);
    hide Flags;
    CountClear(Flags(bytes));
  }

  /** The unsigned page index of free is in range exactly for an address of a managed page. */
  lemma PageIndex(begin: int, pagesCount: nat, addr: int)
    requires 0 < begin && begin % PAGE_SIZE == 0 && begin + pagesCount * PAGE_SIZE <= TWO_32 && 0 <= addr < TWO_32
    ensures ToUint32(addr - begin) / PAGE_SIZE < pagesCount <==> begin <= addr < begin + pagesCount * PAGE_SIZE
    ensures begin <= addr ==> ToUint32(addr - begin) == addr - begin
  {
    if addr < begin {
      assert ToUint32(addr - begin) == TWO_32 + addr - begin;
    }
  }

  lemma OkFacts(bytes: seq<bv8>, begin: int, pagesCount: nat, hint: nat, usedPages: int)
    requires BitmapOk(bytes, begin, pagesCount, hint, usedPages)
    ensures hint <= |bytes| && UsedRun(Flags(bytes), 0, 8 * hint)
    ensures pagesCount > 0 ==> pagesCount - 1 < |Flags(bytes)| && ClearFrom(Flags(bytes), pagesCount - 1)
    ensures pagesCount == 0 ==> |bytes| == 0
    ensures 0 < begin && begin % PAGE_SIZE == 0 && begin + pagesCount * PAGE_SIZE <= TWO_32
  {
  }

  lemma OkHint(bytes: seq<bv8>, begin: int, pagesCount: nat, hint: nat, hint': nat, usedPages: int)
    requires BitmapOk(bytes, begin, pagesCount, hint, usedPages)
    requires hint' <= |bytes| && UsedRun(Flags(bytes), 0, 8 * hint')
    ensures BitmapOk(bytes, begin, pagesCount, hint', usedPages)
  {
  }

  /** Taking a run of free pages below the last page keeps the state in order. */
  lemma OkTaken(bytes: seq<bv8>, bytes': seq<bv8>, begin: int, pagesCount: nat, hint: nat, usedPages: int, used': int,
                s: nat, n: nat)
    requires BitmapOk(bytes, begin, pagesCount, hint, usedPages)
    requires |bytes'| == |bytes| && FreeRun(Flags(bytes), s, n) && s + n <= pagesCount - 1
    requires Flags(bytes') == Marked(Flags(bytes), s, n, true)
    requires used' - usedPages == Count(Flags(bytes')) - Count(Flags(bytes))
    ensures BitmapOk(bytes', begin, pagesCount, hint, used')
  {
    hide Flags;
  }

  /** Returning a run of used pages keeps the state in order when the hint moves down to it. */
  lemma OkReturned(bytes: seq<bv8>, bytes': seq<bv8>, begin: int, pagesCount: nat, hint: nat, usedPages: int, used': int,
                   s: nat, n: nat)
    requires BitmapOk(bytes, begin, pagesCount, hint, usedPages)
    requires |bytes'| == |bytes| && UsedRun(Flags(bytes), s, n)
    requires Flags(bytes') == Marked(Flags(bytes), s, n, false)
    requires used' - usedPages == Count(Flags(bytes')) - Count(Flags(bytes))
    ensures BitmapOk(bytes', begin, pagesCount, Min(hint, s / 8), used')
  {
    hide Flags;
  }

  /** A scan that ends without a free page ran over no page at all: the last page is always free. */
  lemma NothingFound(used: seq<bool>, n: nat, pos: int, start: int, pagesCount: nat)
    requires 0 < n && ScanAt(used, n, pos, 0, start) && pos == |used|
    requires pagesCount > 0 ==> pagesCount - 1 < |used| && ClearFrom(used, pagesCount - 1)
    ensures pagesCount == 0
  {
    if pagesCount > 0 {
      ScanResult(used, n, pos, 0, start, pagesCount - 1);
    }
  }

  /** The unsigned subtraction of alloc does not wrap, and decides what naive first-fit decides. */
  lemma PagesLeft(used: seq<bool>, n: nat, pos: int, found: int, start: int, pagesCount: nat)
    requires 0 < n && 0 < found && pagesCount < TWO_32
    requires ScanAt(used, n, pos, found, start) && (found >= n || pos == |used|)
    requires pagesCount > 0 ==> pagesCount - 1 < |used| && ClearFrom(used, pagesCount - 1)
    requires pagesCount == 0 ==> |used| == 0
    ensures 0 < pagesCount && 0 <= start < pagesCount
    ensures ToUint32(ToUint32(pagesCount - start) - 1) == pagesCount - 1 - start
    ensures Placement(used, pagesCount, n) ==
            if Min(Min(found, n), pagesCount - 1 - start) == n then Some(start) else None
    ensures Min(Min(found, n), pagesCount - 1 - start) == n ==> FreeRun(used, start, n) && start + n <= pagesCount - 1
  {
    if pagesCount > 0 {
      ScanResult(used, n, pos, found, start, pagesCount - 1);
    }
  }

  class BitmapAllocator {
    var bitmapData: array<bv8>
    var begin: int
    var pagesCount: nat
    var firstFreeBitmapByte: nat
    var usedPages: int

    ghost function Used(): seq<bool>
      reads this, bitmapData
    {
      Flags(bitmapData[..])
    }

    ghost predicate Valid()
      reads this, bitmapData
    {
      BitmapOk(bitmapData[..], begin, pagesCount, firstFreeBitmapByte, usedPages)
    }

    /** init, after set_bitmap_offset. */
    constructor (space: nat, spaceSize: nat, bitmapOffset: nat)
      requires space % PAGE_SIZE == 0
      requires space + bitmapOffset + DivideRoundUp(spaceSize / PAGE_SIZE, 8) > 0
      requires AlignUp(space + bitmapOffset + DivideRoundUp(spaceSize / PAGE_SIZE, 8)) + spaceSize <= TWO_32
      ensures Valid() && fresh(bitmapData)
      ensures pagesCount == spaceSize / PAGE_SIZE && usedPages == 0
      ensures begin == AlignUp(space + bitmapOffset + DivideRoundUp(pagesCount, 8))
      ensures forall p :: 0 <= p < |Used()| ==> !Used()[p]
    {
      var length := DivideRoundUp(spaceSize / PAGE_SIZE, 8);
      bitmapData := new bv8[length](_ => 0);
      begin := AlignUp(space + bitmapOffset + length);
      pagesCount := spaceSize / PAGE_SIZE;
      firstFreeBitmapByte := 0;
      usedPages := 0;
      new;
      hide *;
      InitOk(bitmapData[..], begin, pagesCount);
    }

    /** mark_pages: the flags of count pages from startPage on, as far as the bitmap goes, and the use count by each. */
    method MarkPages(startPage: nat, count: nat, isUsed: bool)
      modifies this`usedPages, bitmapData
      ensures Used() == Marked(old(Used()), startPage, count, isUsed)
      ensures var n := Clipped(old(Used()), startPage, count);
              usedPages == if isUsed then old(usedPages) + n else old(usedPages) - n
    {
      hide Flags, Marked;
      var i := startPage / 8;
      var firstClearBit := startPage % 8;
      var left := count;
      ghost var before := Used();
      MarkedNone(before, startPage, isUsed);
      MarkedClipped(before, startPage, count, isUsed);
      while i < bitmapData.Length
        invariant 0 <= left <= count && 0 <= firstClearBit < 8
        invariant 8 * i + firstClearBit == startPage + count - left && |Used()| == |before|
        invariant left < count ==> startPage + count - left <= |before|
        invariant Used() == Marked(before, startPage, count - left, isUsed)
        invariant usedPages == old(usedPages) + (count - left) * (if isUsed then 1 else -1)
      {
        var bitIdx := firstClearBit;
        while bitIdx < 8
          invariant firstClearBit <= bitIdx <= 8 && 0 <= left <= count
          invariant 8 * i + bitIdx == startPage + count - left && |Used()| == |before|
          invariant Used() == Marked(before, startPage, count - left, isUsed)
          invariant usedPages == old(usedPages) + (count - left) * (if isUsed then 1 else -1)
        {
          if left == 0 {
            return;
          }
          MarkedStep(before, startPage, count - left, isUsed);
          MarkPage(i, bitIdx, isUsed);
          left := left - 1;
          bitIdx := bitIdx + 1;
        }
        firstClearBit := 0;
        i := i + 1;
      }
    }

    /** The body of mark_pages' inner loop: one flag. */
    method MarkPage(i: nat, bitIdx: nat, isUsed: bool)
      requires i < bitmapData.Length && bitIdx < 8
      modifies this`usedPages, bitmapData
      ensures Used() == old(Used())[8 * i + bitIdx := isUsed]
      ensures usedPages == old(usedPages) + if isUsed then 1 else -1
    {
      hide Flags, MarkedByte;
      ghost var bytes := bitmapData[..];
      MarkBit(bytes, i, bitIdx, isUsed);
      bitmapData[i] := MarkedByte(bitmapData[i], bitIdx, isUsed);
      assert bitmapData[..] == bytes[i := MarkedByte(bytes[i], bitIdx, isUsed)];
      usedPages := usedPages + if isUsed then 1 else -1;
    }

    /** The bit loop of alloc: one byte that is not full, eaten in blocks of set and clear bits. */
    method ScanByte(i: nat, pageCount: nat, found0: nat, start0: int) returns (found: nat, startPage: int, ghost pos: nat)
      requires i < bitmapData.Length
      requires ScanAt(Used(), pageCount, 8 * i, found0, start0) && found0 < pageCount
      ensures ScanAt(Used(), pageCount, pos, found, startPage)
      ensures found < pageCount ==> pos == 8 * i + 8
    {
      hide Flags, Bit, ScanAt, Ctz, Window;
      found, startPage := found0, start0;
      var cur := bitmapData[i];
      var bit := 0;
      pos := 8 * i;
      ghost var bytes := bitmapData[..];
      WindowWhole(bytes, i);
      while bit < 8
        invariant 0 <= bit <= 8 && pos == 8 * i + bit && 0 <= found
        invariant bytes == bitmapData[..]
        invariant ScanAt(Flags(bytes), pageCount, pos, found, startPage)
        invariant Window(bytes, i, bit, cur)
      {
        WindowOnes(bytes, i, bit, cur);
        var firstClearBit := Ctz(!(cur as bv32));
        if firstClearBit != 0 {
          if found >= pageCount {
            break;
          }
          ScanUsed(Flags(bytes), pageCount, pos, found, startPage, firstClearBit);
          found := 0;
          startPage := -1;
          WindowShift(bytes, i, bit, cur, firstClearBit);
          cur := cur >> firstClearBit;
          bit := bit + firstClearBit;
          pos := pos + firstClearBit;
          continue;
        }
        ghost var run := startPage;
        if startPage == -1 {
          startPage := i * 8 + bit;
        }
        if cur == 0 {
          WindowEmpty(bytes, i, bit);
          ScanFree(Flags(bytes), pageCount, pos, found, run, 8 - bit);
          found := found + 8 - bit;
          pos := pos + 8 - bit;
          break;
        }
        WindowZeros(bytes, i, bit, cur);
        var zeroes := Ctz(cur as bv32);
        ScanFree(Flags(bytes), pageCount, pos, found, run, zeroes);
        WindowShift(bytes, i, bit, cur, zeroes);
        cur := cur >> zeroes;
        found := found + zeroes;
        bit := bit + zeroes;
        pos := pos + zeroes;
      }
    }

    /** The scan of alloc over the bytes from the hint on, which it moves to the first byte that is not full. */
    method FindRun(pageCount: nat) returns (found: nat, startPage: int, ghost pos: nat)
      requires 0 < pageCount
      requires firstFreeBitmapByte <= bitmapData.Length && UsedRun(Used(), 0, 8 * firstFreeBitmapByte)
      modifies this`firstFreeBitmapByte
      ensures ScanAt(Used(), pageCount, pos, found, startPage)
      ensures found < pageCount ==> pos == |Used()|
      ensures firstFreeBitmapByte <= bitmapData.Length && UsedRun(Used(), 0, 8 * firstFreeBitmapByte)
    {
      hide Flags, ScanAt;
      var hasFoundFirstFreeByte := false;
      found, startPage := 0, -1;
      var i := firstFreeBitmapByte;
      pos := 8 * i;
      ScanStart(Used(), pageCount, pos);
      while i < bitmapData.Length
        invariant i <= bitmapData.Length
        invariant ScanAt(Used(), pageCount, pos, found, startPage)
        invariant found < pageCount ==> pos == 8 * i
        invariant firstFreeBitmapByte <= bitmapData.Length && UsedRun(Used(), 0, 8 * firstFreeBitmapByte)
        invariant !hasFoundFirstFreeByte ==> UsedRun(Used(), 0, 8 * i)
      {
        if found >= pageCount {
          break;
        }
        var cur := bitmapData[i];
        if cur == 0xFF {
          FullByte(bitmapData[..], i);
          ScanUsed(Used(), pageCount, pos, found, startPage, 8);
          startPage := -1;
          found := 0;
          pos := pos + 8;
          i := i + 1;
          continue;
        }
        if !hasFoundFirstFreeByte {
          hasFoundFirstFreeByte := true;
          firstFreeBitmapByte := i;
        }
        found, startPage, pos := ScanByte(i, pageCount, found, startPage);
        i := i + 1;
      }
    }

    /** alloc: naive first-fit over all pages but the last, or null. */
    method Alloc(pageCount: nat) returns (addr: int)
      requires Valid()
      modifies this`firstFreeBitmapByte, this`usedPages, bitmapData
      ensures Valid()
      ensures match Placement(old(Used()), pagesCount, pageCount)
              case None => addr == NULL && Used() == old(Used())
              case Some(s) => addr == begin + s * PAGE_SIZE && Used() == Marked(old(Used()), s, pageCount, true)
    {
      if pageCount == 0 {
        return NULL;
      }
      hide Flags, ScanAt, Count, Placement, FreeRun, ClearFrom, UsedRun, BitmapOk, Marked;
      ghost var bytes := bitmapData[..];
      ghost var hint := firstFreeBitmapByte;
      OkFacts(bytes, begin, pagesCount, hint, usedPages);
      var found, startPage;
      ghost var pos;
      found, startPage, pos := FindRun(pageCount);
      OkHint(bytes, begin, pagesCount, hint, firstFreeBitmapByte, usedPages);
      if found == 0 {
        NothingFound(Flags(bytes), pageCount, pos, startPage, pagesCount);
        return NULL;
      }
      PagesLeft(Flags(bytes), pageCount, pos, found, startPage, pagesCount);
      found := Min(found, pageCount);
      found := Min(found, ToUint32(ToUint32(pagesCount - startPage) - 1));
      if found < pageCount {
        return NULL;
      }
      CountMarked(Flags(bytes), startPage, pageCount, true);
      MarkPages(startPage, pageCount, true);
      OkTaken(bytes, bitmapData[..], begin, pagesCount, firstFreeBitmapByte, old(usedPages), usedPages, startPage,
              pageCount);
      return begin + startPage * PAGE_SIZE;
    }

    predicate Belongs(addr: int)
      reads this
    {
      begin <= addr < begin + pagesCount * PAGE_SIZE
    }

    /**
      free: panics on an unaligned address or one outside the managed pages; else the pages are clear again. The
      source does not check that they were in use: the state is in order afterwards exactly when they all were.
     */
    method Free(pageAddr: int, pageCount: nat) returns (r: Outcome<()>)
      requires Valid() && 0 <= pageAddr < TWO_32
      modifies this`firstFreeBitmapByte, this`usedPages, bitmapData
      ensures r.Panic? <==> pageCount > 0 && !(pageAddr % PAGE_SIZE == 0 && Belongs(pageAddr))
      ensures r.Panic? || pageCount == 0 ==> Valid() && Used() == old(Used())
      ensures r.Ok? && pageCount > 0 ==>
                var s := (pageAddr - begin) / PAGE_SIZE;
                && Used() == Marked(old(Used()), s, pageCount, false)
                && (Valid() <==> UsedRun(old(Used()), s, Clipped(old(Used()), s, pageCount)))
    {
      if pageCount == 0 {
        return Ok(());
      }
      hide Flags, Count, BitmapOk, UsedRun, Marked;
      OkFacts(bitmapData[..], begin, pagesCount, firstFreeBitmapByte, usedPages);
      PageIndex(begin, pagesCount, pageAddr);
      if pageAddr % PAGE_SIZE != 0 {
        return Panic;
      }
      var diff := ToUint32(pageAddr - begin);
      var pageIndex := diff / PAGE_SIZE;
      if pageIndex >= pagesCount {
        return Panic;
      }
      ReturnPages(pageIndex, pageCount);
      return Ok(());
    }

    /** free past its checks. */
    method ReturnPages(pageIndex: nat, pageCount: nat)
      requires Valid() && pageIndex < pagesCount
      modifies this`firstFreeBitmapByte, this`usedPages, bitmapData
      ensures Used() == Marked(old(Used()), pageIndex, pageCount, false)
      ensures Valid() <==> UsedRun(old(Used()), pageIndex, Clipped(old(Used()), pageIndex, pageCount))
    {
      hide Flags, Count, BitmapOk, UsedRun, Marked;
      ghost var bytes, n := bitmapData[..], Clipped(Used(), pageIndex, pageCount);
      OkFacts(bytes, begin, pagesCount, firstFreeBitmapByte, usedPages);
      MarkedClipped(Used(), pageIndex, pageCount, false);
      CountMarked(Used(), pageIndex, n, false);
      CountIs(bytes, begin, pagesCount, firstFreeBitmapByte, usedPages);
      MarkPages(pageIndex, pageCount, false);
      var pageBitmapByte := pageIndex / 8;
      firstFreeBitmapByte := Min(firstFreeBitmapByte, pageBitmapByte);
      if UsedRun(Flags(bytes), pageIndex, n) {
        OkReturned(bytes, bitmapData[..], begin, pagesCount, old(firstFreeBitmapByte), old(usedPages), usedPages, pageIndex,
                   n);
      } else {
        CountWrong(bitmapData[..], begin, pagesCount, firstFreeBitmapByte, usedPages);
      }
    }
  }

  lemma CountIs(bytes: seq<bv8>, begin: int, pagesCount: nat, hint: nat, usedPages: int)
    requires BitmapOk(bytes, begin, pagesCount, hint, usedPages)
    ensures usedPages == Count(Flags(bytes)) && pagesCount <= |Flags(bytes)|
  {
    hide Flags, Count;
    FlagsLength(bytes);
  }

  lemma FlagsLength(bytes: seq<bv8>)
    ensures |Flags(bytes)| == 8 * |bytes|
  {
  }

  lemma CountWrong(bytes: seq<bv8>, begin: int, pagesCount: nat, hint: nat, usedPages: int)
    requires usedPages != Count(Flags(bytes))
    ensures !BitmapOk(bytes, begin, pagesCount, hint, usedPages)
  {
  }

  /** The rounding of init: cut to a page boundary and add a page, when not already on a boundary. */
  function AlignUp(a: nat): (r: nat)
    ensures r % PAGE_SIZE == 0 && a <= r < a + PAGE_SIZE
  {
    if a % PAGE_SIZE > 0 then a - a % PAGE_SIZE + PAGE_SIZE else a
  }
}
