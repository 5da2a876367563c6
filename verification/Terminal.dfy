/**
  The text screen as a machine that is fed one character at a time: what core/console.cpp and
  core/drivers/screen.cpp make of control characters, the cursor and scrolling.
 */
module Terminal {
  const WIDTH := 80
  const HEIGHT := 25
  const CELLS := WIDTH * HEIGHT
  const TAB_SIZE := 4
  const STD_COLOR := 0x07

  const CR := 0x0D as char
  const LF := 0x0A as char
  const TAB := 0x09 as char
  const SPACE := ' '

  type Video = v: seq<int> | |v| == CELLS witness seq(CELLS, _ => 0)

  datatype Term = Term(video: Video, x: nat, y: nat)

  /** A cell: the colour in the high byte, the character in the low byte. */
  function Cell(color: int, ch: char): int {
    color * 256 + ch as int % 256
  }

  function BlankLine(): (r: seq<int>)
    ensures |r| == WIDTH
  {
    seq(WIDTH, _ => Cell(STD_COLOR, SPACE))
  }

  /** update_scroll. */
  function Scroll(t: Term): (r: Term)
    ensures r.y < HEIGHT && r.x == t.x
  {
    if t.y >= HEIGHT then Term(t.video[WIDTH..] + BlankLine(), t.x, HEIGHT - 1) else t
  }

  /** putc_core: the wrap is deferred until the next character. */
  function Put(t: Term, color: int, ch: char): (r: Term)
    ensures r.x <= WIDTH && r.y < HEIGHT
  {
    var s := Scroll(if t.x >= WIDTH then Term(t.video, 0, t.y + 1) else t);
    Term(s.video[s.x + s.y * WIDTH := Cell(color, ch)], s.x + 1, s.y)
  }

  function PutTimes(t: Term, color: int, ch: char, n: nat): (r: Term)
    ensures n > 0 ==> r.x <= WIDTH && r.y < HEIGHT
    ensures n == 0 ==> r == t
  {
    if n == 0 then t else Put(PutTimes(t, color, ch, n - 1), color, ch)
  }

  /** One character of text, control characters included. */
  function Step(t: Term, color: int, ch: char): Term {
    if ch == CR then t
    else if ch == LF then Scroll(Term(t.video, 0, t.y + 1))
    else if ch == TAB then PutTimes(t, color, SPACE, TAB_SIZE)
    else Put(t, color, ch)
  }

  function Type(t: Term, color: int, text: seq<char>): Term {
    if text == [] then t else Step(Type(t, color, text[..|text| - 1]), color, text[|text| - 1])
  }

  /** The cursor as one number; a deferred wrap is the same number as the start of the next line. */
  function Linear(t: Term): nat {
    t.y * WIDTH + t.x
  }

  predicate OnScreen(t: Term) {
    t.x <= WIDTH && t.y < HEIGHT
  }

  // ---- scrolling

  predicate PutScrolls(t: Term) {
    t.x >= WIDTH && t.y + 1 >= HEIGHT
  }

  predicate PutTimesScrolls(t: Term, color: int, ch: char, n: nat) {
    n > 0 && (PutTimesScrolls(t, color, ch, n - 1) || PutScrolls(PutTimes(t, color, ch, n - 1)))
  }

  predicate StepScrolls(t: Term, color: int, ch: char) {
    if ch == CR then false
    else if ch == LF then t.y + 1 >= HEIGHT
    else if ch == TAB then PutTimesScrolls(t, color, SPACE, TAB_SIZE)
    else PutScrolls(t)
  }

  /** Some character of the text scrolls the screen. */
  predicate Scrolls(t: Term, color: int, text: seq<char>) {
    text != [] &&
    (Scrolls(t, color, text[..|text| - 1]) ||
     StepScrolls(Type(t, color, text[..|text| - 1]), color, text[|text| - 1]))
  }

  // ---- the page splitter

  /** How calc_fit_substring moves its screen position for one character. */
  function Advance(pos: nat, ch: char): (r: nat)
    ensures pos <= r
  {
    if ch == CR then pos
    else if ch == LF then pos + (WIDTH - pos % WIDTH)
    else if ch == TAB then pos + TAB_SIZE
    else pos + 1
  }

  function AdvanceAll(pos: nat, text: seq<char>): (r: nat)
    ensures pos <= r
  {
    if text == [] then pos else Advance(AdvanceAll(pos, text[..|text| - 1]), text[|text| - 1])
  }

  /** n is the longest prefix of text whose every prefix stays within max. */
  ghost predicate FitsExactly(text: seq<char>, pos: nat, max: nat, n: nat) {
    && n <= |text|
    && AdvanceAll(pos, text[..n]) <= max
    && (n < |text| ==> AdvanceAll(pos, text[..n + 1]) > max)
  }

  /**
    One step: when the real cursor is not past the simulated one and the simulated one stays on the screen, the
    screen does not scroll and the real cursor is still not past the simulated one.
   */
  lemma StepBehind(t: Term, color: int, ch: char, pos: nat)
    requires OnScreen(t) && Linear(t) <= pos && Advance(pos, ch) < CELLS
    ensures !StepScrolls(t, color, ch)
    ensures OnScreen(Step(t, color, ch)) && Linear(Step(t, color, ch)) <= Advance(pos, ch)
  {
    if ch == TAB {
      PutTimesLinear(t, color, SPACE, TAB_SIZE);
    }
  }

  /** Below the last cell every put moves the linear cursor by one and does not scroll. */
  lemma {:induction false} PutTimesLinear(t: Term, color: int, ch: char, n: nat)
    requires OnScreen(t) && Linear(t) + n < CELLS
    ensures !PutTimesScrolls(t, color, ch, n)
    ensures OnScreen(PutTimes(t, color, ch, n)) && Linear(PutTimes(t, color, ch, n)) == Linear(t) + n
  {
    if n > 0 {
      PutTimesLinear(t, color, ch, n - 1);
    }
  }

  /** The splitter is sound: text whose simulated end is on the screen never scrolls it. */
  lemma {:induction false} SplitterSound(t: Term, color: int, text: seq<char>, pos: nat)
    requires OnScreen(t) && Linear(t) <= pos && AdvanceAll(pos, text) < CELLS
    ensures !Scrolls(t, color, text)
    ensures OnScreen(Type(t, color, text)) && Linear(Type(t, color, text)) <= AdvanceAll(pos, text)
  {
    if text != [] {
      var rest := text[..|text| - 1];
      SplitterSound(t, color, rest, pos);
      StepBehind(Type(t, color, rest), color, text[|text| - 1], AdvanceAll(pos, rest));
    }
  }

  /** One more character. */
  lemma TypeOneMore(t: Term, color: int, text: seq<char>, ch: char)
    ensures Type(t, color, text + [ch]) == Step(Type(t, color, text), color, ch)
    ensures Scrolls(t, color, text + [ch]) <==> Scrolls(t, color, text) || StepScrolls(Type(t, color, text), color, ch)
    ensures forall pos: nat :: AdvanceAll(pos, text + [ch]) == Advance(AdvanceAll(pos, text), ch)
  {
    hide Step, StepScrolls, Advance;
    assert (text + [ch])[..|text + [ch]| - 1] == text;
  }

  /** n line feeds. */
  function LineFeeds(n: nat): seq<char> {
    if n == 0 then [] else LineFeeds(n - 1) + [LF]
  }

  lemma {:induction false} LineFeedsAdvance(n: nat)
    ensures AdvanceAll(0, LineFeeds(n)) == n * WIDTH
  {
    if n > 0 {
      LineFeedsAdvance(n - 1);
      TypeOneMore(Term(BLANK, 0, 0), 0, LineFeeds(n - 1), LF);
    }
  }

  const BLANK: Video := seq(CELLS, _ => 0)

  lemma {:induction false} LineFeedsType(v: Video, color: int, n: nat)
    requires n < HEIGHT
    ensures Type(Term(v, 0, 0), color, LineFeeds(n)) == Term(v, 0, n)
  {
    if n > 0 {
      LineFeedsType(v, color, n - 1);
      TypeOneMore(Term(v, 0, 0), color, LineFeeds(n - 1), LF);
    }
  }

  /** A full screen of line feeds scrolls it. */
  lemma LineFeedsFill(v: Video, color: int)
    ensures AdvanceAll(0, LineFeeds(HEIGHT)) == CELLS
    ensures Scrolls(Term(v, 0, 0), color, LineFeeds(HEIGHT))
  {
    LineFeedsAdvance(HEIGHT);
    LineFeedsType(v, color, HEIGHT - 1);
    TypeOneMore(Term(v, 0, 0), color, LineFeeds(HEIGHT - 1), LF);
  }

  /** From the top left corner, a page budget keeps every text from scrolling exactly when it is below a full screen. */
  lemma BudgetExact(v: Video, color: int, max: nat)
    requires max <= CELLS
    ensures max < CELLS <==> forall text :: AdvanceAll(0, text) <= max ==> !Scrolls(Term(v, 0, 0), color, text)
  {
    if max < CELLS {
      forall text | AdvanceAll(0, text) <= max ensures !Scrolls(Term(v, 0, 0), color, text) {
        SplitterSound(Term(v, 0, 0), color, text, 0);
      }
    } else {
      LineFeedsFill(v, color);
      assert AdvanceAll(0, LineFeeds(HEIGHT)) <= max;
    }
  }

  // ---- what is seen

  lemma {:induction false} TypeConcat(t: Term, color: int, a: seq<char>, b: seq<char>)
    ensures Type(t, color, a + b) == Type(Type(t, color, a), color, b)
    ensures Scrolls(t, color, a + b) <==> Scrolls(t, color, a) || Scrolls(Type(t, color, a), color, b)
    decreases |b|
  {
    if b == [] {
      assert a + b == a;
    } else {
      TypeConcat(t, color, a, b[..|b| - 1]);
      assert (a + b)[..|a + b| - 1] == a + b[..|b| - 1];
    }
  }

  /** t' is t with nothing changed before the cursor of t, which has only moved on. */
  ghost predicate After(t: Term, t': Term) {
    OnScreen(t') && Linear(t) <= Linear(t') && forall p :: 0 <= p < Linear(t) && p < CELLS ==> t'.video[p] == t.video[p]
  }

  lemma {:induction false} PutTimesAfter(t: Term, color: int, ch: char, n: nat)
    requires OnScreen(t) && !PutTimesScrolls(t, color, ch, n)
    ensures After(t, PutTimes(t, color, ch, n))
  {
    if n > 0 {
      PutTimesAfter(t, color, ch, n - 1);
    }
  }

  lemma StepAfter(t: Term, color: int, ch: char)
    requires OnScreen(t) && !StepScrolls(t, color, ch)
    ensures After(t, Step(t, color, ch))
  {
    if ch == TAB {
      PutTimesAfter(t, color, SPACE, TAB_SIZE);
    }
  }

  lemma {:induction false} TypeAfter(t: Term, color: int, text: seq<char>)
    requires OnScreen(t) && !Scrolls(t, color, text)
    ensures After(t, Type(t, color, text))
  {
    if text != [] {
      var rest := text[..|text| - 1];
      TypeAfter(t, color, rest);
      StepAfter(Type(t, color, rest), color, text[|text| - 1]);
    }
  }

  /** Nothing of a text that does not scroll is lost: every printing character is still where it was put. */
  lemma GlyphShown(t: Term, color: int, text: seq<char>, i: nat)
    requires OnScreen(t) && !Scrolls(t, color, text)
    requires i < |text| && text[i] !in {CR, LF, TAB}
    ensures var p := Linear(Type(t, color, text[..i]));
            p < CELLS && Type(t, color, text).video[p] == Cell(color, text[i])
  {
    var before, upTo := text[..i], text[..i + 1];
    assert text == upTo + text[i + 1..] && upTo == before + [text[i]] && upTo[..|upTo| - 1] == before;
    TypeConcat(t, color, upTo, text[i + 1..]);
    var s := Type(t, color, before);
    TypeAfter(t, color, before);
    assert !StepScrolls(s, color, text[i]);
    var u := Type(t, color, upTo);
    assert u == Put(s, color, text[i]);
    TypeAfter(u, color, text[i + 1..]);
  }
}
