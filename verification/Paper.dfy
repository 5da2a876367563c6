/**
  The same stream of characters written on a sheet that never ends, and so never scrolls. The screen is a window on it:
  its last 25 lines, once it is longer than that.
 */
module Paper {
  import opened Terminal

  datatype Glyph = Glyph(color: int, ch: char)

  /** under: what the screen showed before; ink: what was written since, by cell; x, y: the cursor. */
  datatype Sheet = Sheet(under: Video, ink: map<nat, Glyph>, x: nat, y: nat)

  /** A sheet laid over a screen. */
  function Over(t: Term): Sheet {
    Sheet(t.video, map[], t.x, t.y)
  }

  function Cursor(s: Sheet): nat {
    s.y * WIDTH + s.x
  }

  function NextLine(s: Sheet): Sheet {
    s.(x := 0, y := s.y + 1)
  }

  /** A character on the sheet; a full line is left first. */
  function Ink(s: Sheet, color: int, ch: char): Sheet {
    var f := if s.x >= WIDTH then NextLine(s) else s;
    f.(ink := f.ink[Cursor(f) := Glyph(color, ch)], x := f.x + 1)
  }

  function Write(s: Sheet, color: int, ch: char): Sheet {
    if ch == CR then s
    else if ch == LF then NextLine(s)
    else if ch == TAB then Ink(Ink(Ink(Ink(s, color, SPACE), color, SPACE), color, SPACE), color, SPACE)
    else Ink(s, color, ch)
  }

  function WriteAll(s: Sheet, color: int, text: seq<char>): Sheet {
    if text == [] then s else Write(WriteAll(s, color, text[..|text| - 1]), color, text[|text| - 1])
  }

  /** v is the video cell for position p of the sheet: colour over character, or what was there, or a blank. */
  predicate Shows(v: int, s: Sheet, p: nat) {
    if p in s.ink then v / 256 == s.ink[p].color && v % 256 == s.ink[p].ch as int % 256
    else if p < CELLS then v == s.under[p]
    else v / 256 == STD_COLOR && v % 256 == 32
  }

  /** The number of lines that have left the screen at the top. */
  function Top(s: Sheet): nat {
    if s.y < HEIGHT then 0 else s.y - (HEIGHT - 1)
  }

  /** The screen and its cursor are the 25 lines of the sheet from line Top on. */
  predicate IsWindow(t: Term, s: Sheet) {
    && t.x == s.x && t.y == s.y - Top(s)
    && forall i :: 0 <= i < CELLS ==> Shows(t.video[i], s, i + Top(s) * WIDTH)
  }

  /** Nothing is written at or behind the cursor. */
  predicate InkBefore(s: Sheet) {
    s.x <= WIDTH && forall p :: p in s.ink ==> p < Cursor(s)
  }

  lemma CellShows(s: Sheet, color: int, ch: char, p: nat)
    requires p in s.ink && s.ink[p] == Glyph(color, ch)
    ensures Shows(Cell(color, ch), s, p)
  {
  }

  lemma BlankShows(s: Sheet, p: nat)
    requires p !in s.ink && CELLS <= p
    ensures Shows(Cell(STD_COLOR, SPACE), s, p)
  {
  }

  /** A line feed, with the scroll it may bring. */
  lemma NextLineWindow(t: Term, s: Sheet)
    requires IsWindow(t, s) && InkBefore(s)
    ensures IsWindow(Scroll(Term(t.video, 0, t.y + 1)), NextLine(s)) && InkBefore(NextLine(s))
  {
    var t', s' := Scroll(Term(t.video, 0, t.y + 1)), NextLine(s);
    forall i | 0 <= i < CELLS ensures Shows(t'.video[i], s', i + Top(s') * WIDTH) {
      if t.y + 1 < HEIGHT {
        assert Shows(t.video[i], s, i + Top(s) * WIDTH);
      } else if i < CELLS - WIDTH {
        assert Shows(t.video[i + WIDTH], s, i + WIDTH + Top(s) * WIDTH);
      } else {
        BlankShows(s', i + Top(s') * WIDTH);
      }
    }
  }

  /** A character where the line has room. */
  lemma InkHere(t: Term, s: Sheet, color: int, ch: char)
    requires IsWindow(t, s) && InkBefore(s) && s.x < WIDTH && t.y < HEIGHT
    ensures var t' := Term(t.video[t.x + t.y * WIDTH := Cell(color, ch)], t.x + 1, t.y);
            var s' := s.(ink := s.ink[Cursor(s) := Glyph(color, ch)], x := s.x + 1);
            IsWindow(t', s') && InkBefore(s')
  {
    var t' := Term(t.video[t.x + t.y * WIDTH := Cell(color, ch)], t.x + 1, t.y);
    var s' := s.(ink := s.ink[Cursor(s) := Glyph(color, ch)], x := s.x + 1);
    CellShows(s', color, ch, Cursor(s));
    hide Cell;
    forall i | 0 <= i < CELLS ensures Shows(t'.video[i], s', i + Top(s') * WIDTH) {
      assert Shows(t.video[i], s, i + Top(s) * WIDTH);
    }
  }

  lemma InkWindow(t: Term, s: Sheet, color: int, ch: char)
    requires IsWindow(t, s) && InkBefore(s)
    ensures IsWindow(Put(t, color, ch), Ink(s, color, ch)) && InkBefore(Ink(s, color, ch))
  {
    WindowCursor(t, s);
    if t.x >= WIDTH {
      NextLineWindow(t, s);
      hide IsWindow, InkBefore, Scroll, Cell, Top, Cursor;
      InkHere(Scroll(Term(t.video, 0, t.y + 1)), NextLine(s), color, ch);
    } else {
      hide IsWindow, InkBefore, Scroll, Cell, Top, Cursor;
      InkHere(t, s, color, ch);
    }
  }

  lemma WindowCursor(t: Term, s: Sheet)
    requires IsWindow(t, s)
    ensures t.x == s.x && t.y < HEIGHT && Scroll(t) == t
  {
  }

  lemma WriteWindow(t: Term, s: Sheet, color: int, ch: char)
    requires IsWindow(t, s) && InkBefore(s)
    ensures IsWindow(Step(t, color, ch), Write(s, color, ch)) && InkBefore(Write(s, color, ch))
  {
    hide IsWindow, InkBefore, Put, Ink, Scroll, NextLine;
    if ch == LF {
      NextLineWindow(t, s);
    } else if ch == TAB {
      var t1, s1 := Put(t, color, SPACE), Ink(s, color, SPACE);
      var t2, s2 := Put(t1, color, SPACE), Ink(s1, color, SPACE);
      var t3, s3 := Put(t2, color, SPACE), Ink(s2, color, SPACE);
      InkWindow(t, s, color, SPACE);
      InkWindow(t1, s1, color, SPACE);
      InkWindow(t2, s2, color, SPACE);
      InkWindow(t3, s3, color, SPACE);
      FourPuts(t, color, SPACE);
    } else if ch != CR {
      InkWindow(t, s, color, ch);
    }
  }

  lemma FourPuts(t: Term, color: int, ch: char)
    ensures PutTimes(t, color, ch, TAB_SIZE) == Put(Put(Put(Put(t, color, ch), color, ch), color, ch), color, ch)
  {
    hide Put;
    assert PutTimes(t, color, ch, 1) == Put(t, color, ch);
    assert PutTimes(t, color, ch, 2) == Put(Put(t, color, ch), color, ch);
  }

  /** Whatever is typed, scrolling included, the screen shows the last lines of the sheet. */
  lemma {:induction false} ScreenIsWindow(t: Term, color: int, text: seq<char>)
    requires OnScreen(t)
    ensures IsWindow(Type(t, color, text), WriteAll(Over(t), color, text))
    ensures InkBefore(WriteAll(Over(t), color, text))
  {
    if text != [] {
      var rest := text[..|text| - 1];
      ScreenIsWindow(t, color, rest);
      hide IsWindow, InkBefore, Step, Write;
      WriteWindow(Type(t, color, rest), WriteAll(Over(t), color, rest), color, text[|text| - 1]);
    }
  }

  // ---- where a character goes

  /** s' is s with more written behind the cursor. */
  predicate Later(s: Sheet, s': Sheet) {
    && s'.x <= WIDTH && Cursor(s) <= Cursor(s') && s'.under == s.under
    && forall p :: p in s.ink && p < Cursor(s) ==> p in s'.ink && s'.ink[p] == s.ink[p]
  }

  lemma InkLater(r: Sheet, s: Sheet, color: int, ch: char)
    requires Later(r, s)
    ensures Later(r, Ink(s, color, ch))
  {
  }

  lemma WriteLater(s: Sheet, color: int, ch: char)
    requires s.x <= WIDTH
    ensures Later(s, Write(s, color, ch))
  {
    if ch != LF && ch != CR {
      assert Later(s, s);
      hide Later, Ink;
      if ch == TAB {
        var s1 := Ink(s, color, SPACE);
        var s2 := Ink(s1, color, SPACE);
        InkLater(s, s, color, SPACE);
        InkLater(s, s1, color, SPACE);
        InkLater(s, s2, color, SPACE);
        InkLater(s, Ink(s2, color, SPACE), color, SPACE);
      } else {
        InkLater(s, s, color, ch);
      }
    }
  }

  lemma {:induction false} WriteAllLater(s: Sheet, color: int, text: seq<char>)
    requires s.x <= WIDTH
    ensures Later(s, WriteAll(s, color, text))
  {
    if text != [] {
      var rest := text[..|text| - 1];
      WriteAllLater(s, color, rest);
      WriteLater(WriteAll(s, color, rest), color, text[|text| - 1]);
    }
  }

  lemma {:induction false} WriteAllConcat(s: Sheet, color: int, a: seq<char>, b: seq<char>)
    ensures WriteAll(s, color, a + b) == WriteAll(WriteAll(s, color, a), color, b)
    decreases |b|
  {
    if b == [] {
      assert a + b == a;
    } else {
      WriteAllConcat(s, color, a, b[..|b| - 1]);
      assert (a + b)[..|a + b| - 1] == a + b[..|b| - 1];
    }
  }

  /** A printing character stays on the sheet where the cursor stood when it came. */
  lemma GlyphOnSheet(s: Sheet, color: int, text: seq<char>, i: nat)
    requires s.x <= WIDTH && i < |text| && text[i] !in {CR, LF, TAB}
    ensures var p, end := Cursor(WriteAll(s, color, text[..i])), WriteAll(s, color, text);
            p < Cursor(end) && p in end.ink && end.ink[p] == Glyph(color, text[i])
  {
    var upTo := text[..i + 1];
    assert upTo[..i] == text[..i] && text == upTo + text[i + 1..];
    var before, u := WriteAll(s, color, text[..i]), WriteAll(s, color, upTo);
    WriteAllLater(s, color, text[..i]);
    assert u == Ink(before, color, text[i]);
    assert u.ink[Cursor(before)] == Glyph(color, text[i]) && Cursor(u) == Cursor(before) + 1;
    hide WriteAll;
    WriteAllConcat(s, color, upTo, text[i + 1..]);
    WriteAllLater(u, color, text[i + 1..]);
  }

  /**
    However far the text scrolls, a printing character put at cell p stands at p - 80 * k after k scrolls, until it
    leaves the screen at the top.
   */
  lemma GlyphFollowed(t: Term, color: int, text: seq<char>, i: nat)
    requires OnScreen(t) && i < |text| && text[i] !in {CR, LF, TAB}
    ensures var p, end := Cursor(WriteAll(Over(t), color, text[..i])), WriteAll(Over(t), color, text);
            var at := p - Top(end) * WIDTH;
            && at < CELLS
            && (0 <= at ==> && Type(t, color, text).video[at] / 256 == color
                            && Type(t, color, text).video[at] % 256 == text[i] as int % 256)
  {
    var p, end := Cursor(WriteAll(Over(t), color, text[..i])), WriteAll(Over(t), color, text);
    GlyphOnSheet(Over(t), color, text, i);
    ScreenIsWindow(t, color, text);
    hide Type, WriteAll;
    var at := p - Top(end) * WIDTH;
    if 0 <= at {
      assert Shows(Type(t, color, text).video[at], end, at + Top(end) * WIDTH);
    }
  }

  // ---- the page splitter, exactly

  /** How often a line feed comes when the line is full. */
  function FullLineFeeds(s: Sheet, color: int, text: seq<char>): nat {
    if text == [] then 0
    else
      var rest := text[..|text| - 1];
      FullLineFeeds(s, color, rest) +
      if text[|text| - 1] == LF && WriteAll(s, color, rest).x == WIDTH then 1 else 0
  }

  lemma SplitterStep(s: Sheet, color: int, ch: char, pos: nat, k: nat)
    requires s.x <= WIDTH && pos == Cursor(s) + WIDTH * k
    ensures Advance(pos, ch) == Cursor(Write(s, color, ch)) + WIDTH * if ch == LF && s.x == WIDTH then k + 1 else k
  {
    if ch == LF {
      assert pos == WIDTH * (s.y + k) + s.x;
    }
  }

  /** The splitter runs ahead of the cursor by one line for every line feed on a full line, and by nothing else. */
  lemma {:induction false} SplitterExact(s: Sheet, color: int, text: seq<char>)
    requires s.x <= WIDTH
    ensures AdvanceAll(Cursor(s), text) == Cursor(WriteAll(s, color, text)) + WIDTH * FullLineFeeds(s, color, text)
  {
    if text != [] {
      var rest := text[..|text| - 1];
      SplitterExact(s, color, rest);
      WriteAllLater(s, color, rest);
      hide Write, Advance;
      SplitterStep(WriteAll(s, color, rest), color, text[|text| - 1], AdvanceAll(Cursor(s), rest),
                   FullLineFeeds(s, color, rest));
    }
  }

  // ---- the last line

  predicate LastLineKept(v: Video, t: Term) {
    t.video[CELLS - WIDTH..] == v[CELLS - WIDTH..]
  }

  lemma ShortTextKeepsLine(v: Video, color: int, text: seq<char>)
    requires AdvanceAll(0, text) <= CELLS - WIDTH
    ensures LastLineKept(v, Type(Term(v, 0, 0), color, text))
  {
    var t := Term(v, 0, 0);
    var s, end := Over(t), WriteAll(Over(t), color, text);
    SplitterExact(s, color, text);
    ScreenIsWindow(t, color, text);
    WriteAllLater(s, color, text);
    hide Type, WriteAll, AdvanceAll;
    assert Cursor(end) <= CELLS - WIDTH && Top(end) == 0;
    var u := Type(t, color, text);
    forall i | CELLS - WIDTH <= i < CELLS ensures u.video[i] == v[i] {
      assert Shows(u.video[i], end, i + Top(end) * WIDTH);
    }
  }

  lemma {:induction false} PlainRun(s: Sheet, color: int, text: seq<char>)
    requires s.x <= WIDTH && forall i :: 0 <= i < |text| ==> text[i] !in {CR, LF, TAB}
    ensures Cursor(WriteAll(s, color, text)) == Cursor(s) + |text| && WriteAll(s, color, text).x <= WIDTH
    ensures FullLineFeeds(s, color, text) == 0
  {
    if text != [] {
      PlainRun(s, color, text[..|text| - 1]);
    }
  }

  /** One character more than 24 lines reaches the last one. */
  lemma LongTextReachesLine(v: Video, color: int) returns (text: seq<char>)
    ensures AdvanceAll(0, text) == CELLS - WIDTH + 1
    ensures !LastLineKept(v, Type(Term(v, 0, 0), color, text))
  {
    var n := CELLS - WIDTH;
    var ch := if v[n] % 256 == 65 then 'B' else 'A';
    text := seq(n + 1, _ => ch);
    var t := Term(v, 0, 0);
    PlainRun(Over(t), color, text);
    SplitterExact(Over(t), color, text);
    PlainRun(Over(t), color, text[..n]);
    GlyphFollowed(t, color, text, n);
    var end := WriteAll(Over(t), color, text);
    hide Type, WriteAll;
    assert Top(end) == 0;
    assert Type(t, color, text).video[n] == Type(t, color, text).video[n..][0];
    assert v[n] == v[n..][0];
  }

  /** 24 lines are exactly the page budgets that leave the last line as it was, whatever the text. */
  lemma BudgetKeepsLine(v: Video, color: int, max: nat)
    ensures max <= CELLS - WIDTH <==>
            forall text :: AdvanceAll(0, text) <= max ==> LastLineKept(v, Type(Term(v, 0, 0), color, text))
  {
    hide LastLineKept;
    if max <= CELLS - WIDTH {
      forall text | AdvanceAll(0, text) <= max ensures LastLineKept(v, Type(Term(v, 0, 0), color, text)) {
        ShortTextKeepsLine(v, color, text);
      }
    } else {
      var text := LongTextReachesLine(v, color);
    }
  }
}
