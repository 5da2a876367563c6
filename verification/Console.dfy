/**
  The console and screen drivers, core/console.cpp and core/drivers/screen.cpp: video memory, the screen cursor
  and the console's own cursor. print works in runs of plain characters; its effect is that of the Terminal
  machine fed one character at a time.
 */
module Console {
  import opened Machine
  import opened CStrings
  import opened Terminal
  import Paper

  function PutAll(t: Term, color: int, text: seq<char>): Term {
    if text == [] then t else Put(PutAll(t, color, text[..|text| - 1]), color, text[|text| - 1])
  }

  predicate Plain(text: seq<char>) {
    forall i :: 0 <= i < |text| ==> text[i] !in {CR, LF, TAB, NUL}
  }

  lemma {:induction false} PlainIsPut(t: Term, color: int, text: seq<char>)
    requires Plain(text)
    ensures Type(t, color, text) == PutAll(t, color, text)
  {
    if text != [] {
      PlainIsPut(t, color, text[..|text| - 1]);
    }
  }

  /** What print shows of a text: up to the first NUL, at most maxLength characters. */
  function Shown(text: seq<char>, maxLength: nat): seq<char> {
    CString(text)[..Min(|CString(text)|, maxLength)]
  }

  lemma TypeNothing(t: Term, color: int)
    ensures Type(t, color, []) == t
  {
  }

  /** Typing up to i is typing up to start, then the plain run, and then one step for the character at i. */
  lemma TypeRun(t: Term, color: int, text: seq<char>, start: nat, i: nat)
    requires start <= i <= |text|
    ensures Type(Type(t, color, text[..start]), color, text[start..i]) == Type(t, color, text[..i])
    ensures i < |text| ==> Type(t, color, text[..i + 1]) == Step(Type(t, color, text[..i]), color, text[i])
  {
    TypeConcat(t, color, text[..start], text[start..i]);
    assert text[..start] + text[start..i] == text[..i];
    if i < |text| {
      assert text[..i + 1][..i] == text[..i];
    }
  }

  lemma ShownIs(text: seq<char>, maxLength: nat, i: nat)
    requires i <= |text| && i <= maxLength && NUL !in text[..i]
    requires i == |text| || text[i] == NUL || i == maxLength
    ensures Shown(text, maxLength) == text[..i]
  {
    if i == |text| || text[i] == NUL {
      CStringIs(text, i);
    } else {
      CStringAtLeast(text, i);
    }
  }

  /** Text without NUL is shown whole. */
  lemma PlainShown(text: seq<char>, start: nat, i: nat)
    requires start <= i <= |text| && Plain(text[start..i])
    ensures Shown(text[start..], i - start) == text[start..i]
  {
    assert text[start..][..i - start] == text[start..i];
    ShownIs(text[start..], i - start, i - start);
  }

  /** Whatever is typed leaves the cursor on the screen. */
  lemma {:induction false} TypeOnScreen(t: Term, color: int, text: seq<char>)
    requires OnScreen(t)
    ensures OnScreen(Type(t, color, text))
  {
    if text != [] {
      TypeOnScreen(t, color, text[..|text| - 1]);
    }
  }

  lemma AdvanceNothing(pos: nat)
    ensures AdvanceAll(pos, []) == pos
  {
  }

  lemma AdvanceNext(pos: nat, text: seq<char>, i: nat)
    requires i < |text|
    ensures AdvanceAll(pos, text[..i + 1]) ==
            var p := AdvanceAll(pos, text[..i]);
            if text[i] == CR then p else if text[i] == LF then p + (WIDTH - p % WIDTH)
            else if text[i] == TAB then p + TAB_SIZE else p + 1
  {
    assert text[..i + 1][..i] == text[..i];
  }

  lemma FitsUpTo(text: seq<char>, pos: nat, max: nat, i: nat)
    requires i < |text| && NUL !in text[..i] && text[i] != NUL
    requires AdvanceAll(pos, text[..i]) <= max < AdvanceAll(pos, text[..i + 1])
    ensures FitsExactly(CString(text), pos, max, i)
  {
    var c := CString(text);
    assert text[..i + 1] == text[..i] + [text[i]];
    CStringAtLeast(text, i + 1);
    assert c[..i] == text[..i] && c[..i + 1] == text[..i + 1];
  }

  class Console {
    const video: array<int>
    var outX: nat
    var outY: nat
    var printColor: int
    var posX: nat
    var posY: nat
    var color: int

    ghost predicate Valid()
      reads this
    {
      video.Length == CELLS && posX <= WIDTH && posY < HEIGHT
    }

    /** The screen with the screen driver's cursor. */
    ghost function Screen(): Term
      reads this, video
      requires video.Length == CELLS
    {
      Term(video[..], outX, outY)
    }

    /** The screen with the console's cursor. */
    ghost function Cursor(): Term
      reads this, video
      requires video.Length == CELLS
    {
      Term(video[..], posX, posY)
    }

    method UpdateScroll()
      requires video.Length == CELLS
      modifies this`outY, video
      ensures Screen() == Scroll(old(Screen()))
      ensures old(outY) < HEIGHT ==> video[..] == old(video[..]) && outY == old(outY)
      ensures old(outY) >= HEIGHT ==>
                && outY == HEIGHT - 1
                && (forall i :: 0 <= i < CELLS - WIDTH ==> video[i] == old(video[i + WIDTH]))
                && (forall i :: CELLS - WIDTH <= i < CELLS ==> video[i] == Cell(STD_COLOR, SPACE))
    {
      if outY >= HEIGHT {
        ghost var before := video[..];
        var i := 0;
        while i < WIDTH * (HEIGHT - 1)
          invariant 0 <= i <= WIDTH * (HEIGHT - 1)
          invariant forall k :: 0 <= k < i ==> video[k] == before[k + WIDTH]
          invariant forall k :: i <= k < CELLS ==> video[k] == before[k]
        {
          video[i] := video[i + WIDTH];
          i := i + 1;
        }
        i := 0;
        while i < WIDTH
          invariant 0 <= i <= WIDTH
          invariant forall k :: 0 <= k < WIDTH * (HEIGHT - 1) ==> video[k] == before[k + WIDTH]
          invariant forall k :: WIDTH * (HEIGHT - 1) <= k < WIDTH * (HEIGHT - 1) + i ==> video[k] == Cell(STD_COLOR, SPACE)
        {
          video[WIDTH * (HEIGHT - 1) + i] := Cell(STD_COLOR, SPACE);
          i := i + 1;
        }
        assert video[..] == before[WIDTH..] + BlankLine();
        outY := HEIGHT - 1;
      }
    }

    /** putc_core on the screen cursor. */
    method Putc(ch: char)
      requires video.Length == CELLS
      modifies this`outX, this`outY, video
      ensures Screen() == Put(old(Screen()), printColor, ch)
    {
      if outX >= WIDTH {
        outY := outY + 1;
        outX := 0;
      }
      UpdateScroll();
      video[outX + outY * WIDTH] := Cell(printColor, ch);
      outX := outX + 1;
    }

    /** kscreen::print. */
    method PrintRaw(source: seq<char>, bufferLength: nat)
      requires video.Length == CELLS
      modifies this`outX, this`outY, video
      ensures Screen() == PutAll(old(Screen()), printColor, Shown(source, bufferLength))
    {
      hide Put, CString;
      ghost var t := Screen();
      var i := 0;
      while i < |source| && source[i] != NUL && i < bufferLength
        invariant 0 <= i <= |source| && i <= bufferLength && NUL !in source[..i]
        invariant Screen() == PutAll(t, printColor, source[..i])
      {
        assert source[..i + 1] == source[..i] + [source[i]] && source[..i + 1][..i] == source[..i];
        Putc(source[i]);
        i := i + 1;
      }
      ShownIs(source, bufferLength, i);
    }

    /** The flush of print: the run of plain characters since the last control character. */
    method Flush(text: seq<char>, start: nat, i: nat)
      requires video.Length == CELLS && start <= i <= |text| && Plain(text[start..i])
      modifies this`outX, this`outY, video
      ensures Screen() == Type(old(Screen()), printColor, text[start..i])
    {
      if i - start > 0 {
        PlainIsPut(Screen(), printColor, text[start..i]);
        PlainShown(text, start, i);
        PrintRaw(text[start..], i - start);
      }
    }

    /** print: the text, up to its NUL or maxLength, typed at the console's cursor in its colour. */
    method Print(text: seq<char>, maxLength: nat)
      requires Valid()
      modifies this`outX, this`outY, this`printColor, this`posX, this`posY, video
      ensures Valid()
      ensures Cursor() == Type(old(Cursor()), color, Shown(text, maxLength))
      ensures Paper.IsWindow(Cursor(), Paper.WriteAll(Paper.Over(old(Cursor())), color, Shown(text, maxLength)))
    {
      hide Type, CString, Put, Scroll, Paper.IsWindow, Paper.WriteAll;
      Paper.ScreenIsWindow(Cursor(), color, Shown(text, maxLength));
      outX, outY, printColor := posX, posY, color;
      ghost var t := Screen();
      var start := 0;
      var i := 0;
      TypeNothing(t, color);
      while i < |text| && text[i] != NUL && i < maxLength
        invariant 0 <= start <= i <= |text| && i <= maxLength
        invariant printColor == color
        invariant NUL !in text[..i] && Plain(text[start..i])
        invariant Screen() == Type(t, color, text[..start])
      {
        var ch := text[i];
        assert text[start..i + 1] == text[start..i] + [ch] && text[..i + 1] == text[..i] + [ch];
        if ch as int < 0x20 {
          if ch == CR {
            Flush(text, start, i);
            TypeRun(t, color, text, start, i);
            start := i + 1;
            i := i + 1;
            continue;
          }
          if ch == LF {
            Flush(text, start, i);
            TypeRun(t, color, text, start, i);
            outY := outY + 1;
            outX := 0;
            UpdateScroll();
            start := i + 1;
          }
          if ch == TAB {
            Flush(text, start, i);
            TypeRun(t, color, text, start, i);
            PrintSpaces();
            start := i + 1;
          }
        }
        i := i + 1;
      }
      Flush(text, start, i);
      TypeRun(t, color, text, start, i);
      ShownIs(text, maxLength, i);
      TypeOnScreen(t, color, text[..i]);
      posX, posY := outX, outY;
    }

    /** A tab. */
    method PrintSpaces()
      requires video.Length == CELLS
      modifies this`outX, this`outY, video
      ensures Screen() == PutTimes(old(Screen()), printColor, SPACE, TAB_SIZE)
    {
      ghost var t := Screen();
      var j := 0;
      while j < TAB_SIZE
        invariant 0 <= j <= TAB_SIZE
        invariant Screen() == PutTimes(t, printColor, SPACE, j)
      {
        Putc(SPACE);
        j := j + 1;
      }
    }

    /** calc_fit_substring: the longest prefix that the simulated cursor ends within the limit. */
    method CalcFitSubstring(text: seq<char>, limit: nat) returns (i: nat)
      requires Valid()
      ensures FitsExactly(CString(text), Linear(Cursor()), Min(Linear(Cursor()) + limit, CELLS), i)
    {
      hide Advance, AdvanceAll;
      var screenPos := posY * WIDTH + posX;
      var actualSpaceLeft := WIDTH * HEIGHT - screenPos;
      var screenSpaceLimit := limit;
      if screenSpaceLimit > actualSpaceLeft {
        screenSpaceLimit := actualSpaceLeft;
      }
      var maxScreenSpace := screenPos + screenSpaceLimit;
      ghost var pos := screenPos;
      i := 0;
      AdvanceNothing(pos);
      while i < |text| && text[i] != NUL
        invariant 0 <= i <= |text| && NUL !in text[..i]
        invariant screenPos == AdvanceAll(pos, text[..i]) <= maxScreenSpace
      {
        var ch := text[i];
        AdvanceNext(pos, text, i);
        if ch == CR {
          i := i + 1;
          continue;
        }
        if ch == LF {
          var decomposedCursorX := screenPos % WIDTH;
          screenPos := screenPos + (WIDTH - decomposedCursorX);
        } else if ch == TAB {
          screenPos := screenPos + TAB_SIZE;
        } else {
          screenPos := screenPos + 1;
        }
        if screenPos > maxScreenSpace {
          FitsUpTo(text, pos, maxScreenSpace, i);
          return i;
        }
        i := i + 1;
      }
      CStringIs(text, i);
      assert text[..i][..i] == text[..i];
    }
  }
}
