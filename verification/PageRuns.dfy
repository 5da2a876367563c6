/**
  The page allocator seen naively: a sequence of page flags searched page by page. PageBitmap refines it with
  the byte-wise scan of the kernel.
 */
module PageRuns {
  import opened Machine

  /** Pages s to s + n are all free. */
  predicate FreeRun(used: seq<bool>, s: int, n: int) {
    0 <= s && s + n <= |used| && forall p :: s <= p < s + n ==> !used[p]
  }

  predicate UsedRun(used: seq<bool>, s: int, n: int) {
    0 <= s && s + n <= |used| && forall p :: s <= p < s + n ==> used[p]
  }

  /** Naive first-fit below page limit: try every start in turn. */
  function FirstFit(used: seq<bool>, limit: int, n: nat, s: nat): (r: Option<nat>)
    ensures match r
            case Some(k) =>
              s <= k && k + n <= limit && FreeRun(used, k, n) && forall j :: s <= j < k ==> !FreeRun(used, j, n)
            case None => forall j :: s <= j && j + n <= limit ==> !FreeRun(used, j, n)
    decreases limit - s
  {
    if s + n > limit then None
    else if FreeRun(used, s, n) then Some(s)
    else FirstFit(used, limit, n, s + 1)
  }

  /** Where a request of n pages goes: the lowest free run that leaves out the last page. */
  function Placement(used: seq<bool>, pagesCount: nat, n: nat): Option<nat> {
    if n == 0 || pagesCount == 0 then None else FirstFit(used, pagesCount - 1, n, 0)
  }

  /** s is the lowest start of n free pages below the last page. */
  predicate IsLowest(used: seq<bool>, pagesCount: nat, n: nat, s: nat) {
    0 < n && FreeRun(used, s, n) && s + n < pagesCount && forall j :: 0 <= j < s ==> !FreeRun(used, j, n)
  }

  lemma PlacementExact(used: seq<bool>, pagesCount: nat, n: nat)
    ensures forall s: nat :: Placement(used, pagesCount, n) == Some(s) <==> IsLowest(used, pagesCount, n, s)
  {
    if n > 0 && pagesCount > 0 {
      var r := FirstFit(used, pagesCount - 1, n, 0);
      forall s: nat ensures r == Some(s) <==> IsLowest(used, pagesCount, n, s) {
      }
    }
  }

  function Marked(used: seq<bool>, s: int, n: int, v: bool): (r: seq<bool>)
    ensures |r| == |used|
    ensures forall p :: 0 <= p < |used| ==> r[p] == if s <= p < s + n then v else used[p]
  {
    seq(|used|, p requires 0 <= p < |used| => if s <= p < s + n then v else used[p])
  }

  function Count(used: seq<bool>): nat {
    if used == [] then 0 else Count(used[..|used| - 1]) + if used[|used| - 1] then 1 else 0
  }

  /** Every allocatable page is below limit, and so is the whole of what is in use. */
  predicate ClearFrom(used: seq<bool>, limit: int) {
    forall p :: 0 <= p < |used| && limit <= p ==> !used[p]
  }

  lemma {:induction false} CountSet(used: seq<bool>, p: nat, v: bool)
    requires p < |used|
    ensures Count(used[p := v]) == Count(used) + (if v then 1 else 0) - (if used[p] then 1 else 0)
    decreases |used|
  {
    var k := |used| - 1;
    if p == k {
      assert used[p := v][..k] == used[..k];
    } else {
      CountSet(used[..k], p, v);
      assert used[p := v][..k] == used[..k][p := v];
    }
  }

  lemma MarkedStep(used: seq<bool>, s: nat, n: nat, v: bool)
    requires s + n < |used|
    ensures Marked(used, s, n + 1, v) == Marked(used, s, n, v)[s + n := v]
  {
  }

  lemma MarkedNone(used: seq<bool>, s: int, v: bool)
    ensures Marked(used, s, 0, v) == used
  {
  }

  /** How many of n pages from s on there are. */
  function Clipped(used: seq<bool>, s: nat, n: nat): nat {
    if s >= |used| then 0 else Min(n, |used| - s)
  }

  lemma MarkedClipped(used: seq<bool>, s: nat, n: nat, v: bool)
    ensures Marked(used, s, n, v) == Marked(used, s, Clipped(used, s, n), v)
  {
  }

  lemma RunNone(used: seq<bool>, s: nat)
    requires s <= |used|
    ensures FreeRun(used, s, 0) && UsedRun(used, s, 0)
  {
  }

  lemma RunStep(used: seq<bool>, s: nat, n: nat)
    requires s + n < |used|
    ensures FreeRun(used, s, n + 1) <==> FreeRun(used, s, n) && !used[s + n]
    ensures UsedRun(used, s, n + 1) <==> UsedRun(used, s, n) && used[s + n]
  {
  }

  /** Marking n pages changes the number of used ones by n exactly when none of them was marked before. */
  lemma {:induction false} CountMarked(used: seq<bool>, s: nat, n: nat, v: bool)
    requires s + n <= |used|
    ensures var d := Count(Marked(used, s, n, v)) - Count(used);
            && (v ==> d <= n && (d == n <==> FreeRun(used, s, n)))
            && (!v ==> -d <= n && (-d == n <==> UsedRun(used, s, n)))
  {
    hide *;
    if n == 0 {
      MarkedNone(used, s, v);
      RunNone(used, s);
    } else {
      CountMarked(used, s, n - 1, v);
      MarkedStep(used, s, n - 1, v);
      RunStep(used, s, n - 1);
      var mid := Marked(used, s, n - 1, v);
      assert mid[s + n - 1] == used[s + n - 1];
      CountSet(mid, s + n - 1, v);
    }
  }

  lemma {:induction false} CountClear(used: seq<bool>)
    requires forall p :: 0 <= p < |used| ==> !used[p]
    ensures Count(used) == 0
  {
    if used != [] {
      CountClear(used[..|used| - 1]);
    }
  }

  // ---- the scan

  /**
    The scan stands at page pos. found is the length of the free run that ends there and start its first page,
    or -1 when there is none; no run of n pages starts below it.
   */
  ghost predicate ScanAt(used: seq<bool>, n: int, pos: int, found: int, start: int) {
    && 0 <= found <= pos <= |used|
    && start == (if found > 0 then pos - found else -1)
    && FreeRun(used, pos - found, found)
    && (pos - found > 0 ==> used[pos - found - 1])
    && forall s :: 0 <= s < pos - found ==> !FreeRun(used, s, n)
  }

  lemma ScanStart(used: seq<bool>, n: int, pos: int)
    requires 0 < n && UsedRun(used, 0, pos) && 0 <= pos
    ensures ScanAt(used, n, pos, 0, -1)
  {
    forall s | 0 <= s < pos ensures !FreeRun(used, s, n) {
      assert used[s];
    }
  }

  /** A block of used pages ends the run before it has n pages. */
  lemma ScanUsed(used: seq<bool>, n: int, pos: int, found: int, start: int, k: int)
    requires ScanAt(used, n, pos, found, start) && found < n
    requires 0 < k && UsedRun(used, pos, k)
    ensures ScanAt(used, n, pos + k, 0, -1)
  {
    forall s | 0 <= s < pos + k ensures !FreeRun(used, s, n) {
      var q := if s < pos then pos else s;
      assert used[q];
    }
  }

  /** A block of free pages prolongs the run. */
  lemma ScanFree(used: seq<bool>, n: int, pos: int, found: int, start: int, k: int)
    requires ScanAt(used, n, pos, found, start)
    requires 0 < k && FreeRun(used, pos, k)
    ensures ScanAt(used, n, pos + k, found + k, if start == -1 then pos else start)
  {
  }

  /** Where the scan ends is what naive first-fit finds, when everything from page limit on is free. */
  lemma ScanResult(used: seq<bool>, n: nat, pos: int, found: int, start: int, limit: int)
    requires 0 < n && 0 <= limit < |used| && ClearFrom(used, limit)
    requires ScanAt(used, n, pos, found, start) && (found >= n || pos == |used|)
    ensures 0 < found && 0 <= start <= limit
    ensures FirstFit(used, limit, n, 0) == if Min(Min(found, n), limit - start) == n then Some(start) else None
  {
    assert pos - found > 0 ==> !(limit <= pos - found - 1);
    assert found >= n ==> FreeRun(used, start, n);
  }
}
