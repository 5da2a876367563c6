/** kernel_render_logs: the flattened log, cut into pages that fit the screen. */
module LogPager {
  import opened Machine
  import opened CStrings
  import opened Terminal
  import opened Console
  import opened SysLog
  import Paper

  /** The last line of the screen is left out of a page. */
  const PAGE_SPACE := WIDTH * (HEIGHT - 1)

  function FitFrom(text: seq<char>, max: nat, i: nat): (n: nat)
    requires i <= |text| && AdvanceAll(0, text[..i]) <= max
    ensures i <= n && FitsExactly(text, 0, max, n)
    decreases |text| - i
  {
    if i == |text| || AdvanceAll(0, text[..i + 1]) > max then i else FitFrom(text, max, i + 1)
  }

  /** How much of the text goes on one page. */
  function Fit(text: seq<char>): (n: nat)
    ensures FitsExactly(text, 0, PAGE_SPACE, n)
  {
    assert text[..0] == [];
    FitFrom(text, PAGE_SPACE, 0)
  }

  lemma {:induction false} AdvanceGrows(pos: nat, text: seq<char>, i: nat, j: nat)
    requires i <= j <= |text|
    ensures AdvanceAll(pos, text[..i]) <= AdvanceAll(pos, text[..j])
  {
    if i < j {
      AdvanceGrows(pos, text, i, j - 1);
      assert text[..j][..j - 1] == text[..j - 1];
    }
  }

  /** There is only one such length. */
  lemma FitUnique(text: seq<char>, pos: nat, max: nat, m: nat, n: nat)
    requires FitsExactly(text, pos, max, m) && FitsExactly(text, pos, max, n)
    ensures m == n
  {
    if m < n {
      AdvanceGrows(pos, text, m + 1, n);
    } else if n < m {
      AdvanceGrows(pos, text, n + 1, m);
    }
  }

  /** Where page k of the log starts. */
  function PageStart(log: seq<char>, k: nat): (r: nat)
    ensures r <= |log|
  {
    if k == 0 then 0 else PageStart(log, k - 1) + Fit(log[PageStart(log, k - 1)..])
  }

  lemma PageStartMonotone(log: seq<char>, k: nat)
    ensures PageStart(log, k) <= PageStart(log, k + 1)
  {
  }

  function Page(log: seq<char>, k: nat): seq<char> {
    PageStartMonotone(log, k);
    log[PageStart(log, k)..PageStart(log, k + 1)]
  }

  function FirstPages(log: seq<char>, k: nat): seq<char> {
    if k == 0 then [] else FirstPages(log, k - 1) + Page(log, k - 1)
  }

  lemma SliceJoins(s: seq<char>, a: nat, b: nat)
    requires a <= b <= |s|
    ensures s[..a] + s[a..b] == s[..b]
  {
  }

  lemma PageJoins(log: seq<char>, k: nat)
    ensures log[..PageStart(log, k)] + Page(log, k) == log[..PageStart(log, k + 1)]
  {
    PageStartMonotone(log, k);
    hide PageStart;
    SliceJoins(log, PageStart(log, k), PageStart(log, k + 1));
  }

  lemma FirstPagesStep(log: seq<char>, k: nat)
    ensures FirstPages(log, k + 1) == FirstPages(log, k) + Page(log, k)
  {
    hide Page;
  }

  lemma NoPages(log: seq<char>)
    ensures FirstPages(log, 0) == log[..PageStart(log, 0)]
  {
  }

  /** The pages tile the log: no gap, no overlap. */
  lemma {:induction false} PagesTile(log: seq<char>, k: nat)
    ensures FirstPages(log, k) == log[..PageStart(log, k)]
  {
    hide *;
    if k == 0 {
      NoPages(log);
    } else {
      PagesTile(log, k - 1);
      FirstPagesStep(log, k - 1);
      PageJoins(log, k - 1);
    }
  }

  /** A page of a text that is not empty is not empty. */
  lemma PageProgress(text: seq<char>)
    requires text != []
    ensures Fit(text) > 0
  {
    assert text[..1][..0] == [];
  }

  /** After k pages at least k characters, or all of them, have been shown. */
  lemma {:induction false} PagesAdvance(log: seq<char>, k: nat)
    ensures PageStart(log, k) >= Min(k, |log|)
  {
    if k > 0 {
      PagesAdvance(log, k - 1);
      if PageStart(log, k - 1) < |log| {
        PageProgress(log[PageStart(log, k - 1)..]);
      }
    }
  }

  /** Page by page the whole log is shown. */
  lemma PagesCover(log: seq<char>)
    ensures FirstPages(log, |log|) == log && PageStart(log, |log|) == |log|
  {
    PagesTile(log, |log|);
    PagesAdvance(log, |log|);
  }

  /** No page scrolls a cleared screen, and every printing character of it is where it was put. */
  lemma PageFitsScreen(log: seq<char>, k: nat, v: Video, color: int)
    ensures !Scrolls(Term(v, 0, 0), color, Page(log, k))
    ensures forall i :: 0 <= i < |Page(log, k)| && Page(log, k)[i] !in {CR, LF, TAB} ==>
              var p := Linear(Type(Term(v, 0, 0), color, Page(log, k)[..i]));
              p < CELLS && Type(Term(v, 0, 0), color, Page(log, k)).video[p] == Cell(color, Page(log, k)[i])
  {
    var rest := log[PageStart(log, k)..];
    assert Page(log, k) == rest[..Fit(rest)];
    SplitterSound(Term(v, 0, 0), color, Page(log, k), 0);
    forall i | 0 <= i < |Page(log, k)| && Page(log, k)[i] !in {CR, LF, TAB}
      ensures var p := Linear(Type(Term(v, 0, 0), color, Page(log, k)[..i]));
              p < CELLS && Type(Term(v, 0, 0), color, Page(log, k)).video[p] == Cell(color, Page(log, k)[i])
    {
      GlyphShown(Term(v, 0, 0), color, Page(log, k), i);
    }
  }

  /** Nothing beyond the page's budget: the last line stays as it was. */
  lemma PageKeepsLastLine(log: seq<char>, k: nat, v: Video, color: int)
    ensures Paper.LastLineKept(v, Type(Term(v, 0, 0), color, Page(log, k)))
  {
    var rest := log[PageStart(log, k)..];
    assert Page(log, k) == rest[..Fit(rest)];
    Paper.BudgetKeepsLine(v, color, PAGE_SPACE);
  }

  /** And no larger budget has that property. */
  lemma PageSpaceLargest(v: Video, color: int, max: nat)
    ensures max <= PAGE_SPACE <==>
            forall text :: AdvanceAll(0, text) <= max ==> Paper.LastLineKept(v, Type(Term(v, 0, 0), color, text))
  {
    Paper.BudgetKeepsLine(v, color, max);
  }

  /** What kernel_render_logs answers after page k: is there more? */
  predicate More(log: seq<char>, k: nat) {
    PageStart(CString(log), k + 1) < |log|
  }

  /** Some page is answered to be the last exactly when the log holds no NUL. */
  lemma PagingEnds(log: seq<char>)
    ensures (exists k: nat :: !More(log, k)) <==> NUL !in log
  {
    var c := CString(log);
    if NUL !in log {
      CStringIs(log, |log|);
      PagesAdvance(c, |log| + 1);
      assert !More(log, |log|);
    } else {
      assert |c| < |log|;
    }
  }

  /** For a log without NUL the answer is whether text is left, and the pages answered so are all of it. */
  lemma MoreIsExact(log: seq<char>, k: nat)
    requires NUL !in log
    ensures More(log, k) <==> FirstPages(log, k + 1) != log
  {
    CStringIs(log, |log|);
    assert log[..|log|] == log;
    PagesTile(log, k + 1);
  }

  /** kernel_render_logs, on a screen that was just cleared. */
  method RenderLogs(log: SysLog, con: Console, pageIndex: nat) returns (more: bool)
    requires log.Valid() && con.Valid() && con.posX == con.posY == 0
    requires log.flatBuffer as object != con.video && log.buffer as object != con.video
    modifies log.flatBuffer, con, con.video
    ensures log.Valid() && con.Valid()
    ensures var shown := Last(log.history, SYSLOG_LENGTH);
            && more == More(shown, pageIndex)
            && con.Cursor() == Type(old(con.Cursor()), old(con.color), Page(CString(shown), pageIndex))
  {
    hide Type, CString, PageStart, Fit, FitsExactly, AdvanceAll, Last, Ring, Shown, Page, Paper.IsWindow, Paper.WriteAll;
    var length := log.Flatten();
    ghost var c := CString(Last(log.history, SYSLOG_LENGTH));
    var flat := log.flatBuffer[..];
    FlatText(flat, Last(log.history, SYSLOG_LENGTH), length);
    var currentOffset := SkipPages(con, flat, pageIndex);
    var chunkLength := con.CalcFitSubstring(flat[currentOffset..], PAGE_SPACE);
    PageNext(flat, c, pageIndex, chunkLength);
    con.Print(flat[currentOffset..], chunkLength);
    return currentOffset + chunkLength < length;
  }

  /** The loop of kernel_render_logs: where page pageIndex of the flattened log starts. */
  method SkipPages(con: Console, flat: seq<char>, pageIndex: nat) returns (currentOffset: nat)
    requires con.Valid() && con.posX == con.posY == 0
    ensures currentOffset == PageStart(CString(flat), pageIndex)
  {
    hide CString, PageStart, Fit, FitsExactly, AdvanceAll, Shown, Page;
    ghost var c := CString(flat);
    currentOffset := 0;
    PageStartZero(c);
    for i := 0 to pageIndex
      invariant currentOffset == PageStart(c, i)
    {
      var fit := con.CalcFitSubstring(flat[currentOffset..], PAGE_SPACE);
      PageNext(flat, c, i, fit);
      currentOffset := currentOffset + fit;
    }
  }

  lemma PageStartZero(c: seq<char>)
    ensures PageStart(c, 0) == 0
  {
  }

  lemma FlatText(flat: seq<char>, shown: seq<char>, length: nat)
    requires length < |flat| && flat[..length] == shown && flat[length] == NUL
    ensures CString(flat) == CString(shown)
  {
    var c := CString(shown);
    assert c == flat[..|c|];
    CStringIs(flat, |c|);
  }

  /** The splitter, called on the rest of the text, finds the length of the next page. */
  lemma PageNext(flat: seq<char>, c: seq<char>, k: nat, fit: nat)
    requires c == CString(flat)
    requires PageStart(c, k) <= |flat| && FitsExactly(CString(flat[PageStart(c, k)..]), 0, PAGE_SPACE, fit)
    ensures PageStart(c, k + 1) == PageStart(c, k) + fit
    ensures Shown(flat[PageStart(c, k)..], fit) == Page(c, k)
  {
    var s := PageStart(c, k);
    CStringFrom(flat, s);
    FitUnique(c[s..], 0, PAGE_SPACE, fit, Fit(c[s..]));
  }
}
