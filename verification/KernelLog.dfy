/** kernel_log: a message formatted into the log's ring and, while that is switched on, onto the console. */
module KernelLog {
  import opened CStrings
  import opened Console
  import opened Format
  import opened SysLog
  import opened Terminal
  import Paper

  /** The characters that a console shows of a text: a NUL ends the portion it stands in, and stands there alone. */
  function Visible(text: seq<char>): seq<char> {
    if text == [] then []
    else Visible(text[..|text| - 1]) + if text[|text| - 1] == NUL then [] else [text[|text| - 1]]
  }

  lemma {:induction false} VisibleConcat(a: seq<char>, b: seq<char>)
    ensures Visible(a + b) == Visible(a) + Visible(b)
    decreases |b|
  {
    if b == [] {
      assert a + b == a;
    } else {
      var t := b[..|b| - 1];
      VisibleConcat(a, t);
      assert (a + b)[..|a + b| - 1] == a + t;
    }
  }

  lemma {:induction false} VisiblePlain(text: seq<char>)
    requires NUL !in text
    ensures Visible(text) == text
  {
    if text != [] {
      VisiblePlain(text[..|text| - 1]);
    }
  }

  lemma PortionShown(p: seq<char>)
    requires IsPortion(p)
    ensures Shown(p, |p|) == Visible(p)
  {
    if NUL !in p {
      VisiblePlain(p);
      CStringWhole(p);
    } else {
      assert p[..0] == [] && Visible(p[..0]) == [];
    }
  }

  lemma {:induction false} PortionAt(portions: seq<seq<char>>, n: nat)
    requires n < |portions| && ArePortions(portions)
    ensures IsPortion(portions[n]) && Concat(portions[..n + 1]) == Concat(portions[..n]) + portions[n]
  {
    TakePortion(portions, n);
  }

  lemma HistoryStep(h: seq<char>, a: seq<char>, b: seq<char>)
    ensures h + a + b == h + (a + b)
  {
  }

  /** vprintf on the console: the visible characters of the formatted text, in the console's colour. */
  method PrintPortions(con: Console, portions: seq<seq<char>>)
    requires con.Valid() && ArePortions(portions)
    modifies con`outX, con`outY, con`printColor, con`posX, con`posY, con.video
    ensures con.Valid() && con.Cursor() == Type(old(con.Cursor()), con.color, Visible(Concat(portions)))
  {
    ghost var t := con.Cursor();
    NothingPrinted(t, con.color, portions);
    hide Type, Visible, Concat, Shown, IsPortion, ArePortions, Paper.IsWindow, Paper.WriteAll;
    var n := 0;
    while n < |portions|
      invariant 0 <= n <= |portions| && con.Valid()
      invariant con.Cursor() == Type(t, con.color, Visible(Concat(portions[..n])))
    {
      PortionAt(portions, n);
      PortionShown(portions[n]);
      VisibleConcat(Concat(portions[..n]), portions[n]);
      TypeConcat(t, con.color, Visible(Concat(portions[..n])), Visible(portions[n]));
      con.Print(portions[n], |portions[n]|);
      n := n + 1;
    }
    assert portions[..n] == portions;
  }

  lemma NothingPrinted(t: Term, color: int, portions: seq<seq<char>>)
    ensures Type(t, color, Visible(Concat(portions[..0]))) == t
  {
    assert portions[..0] == [] && Concat([]) == [];
  }

  /** kernel_log: the history grows by the formatted text, which also appears on the console when that is on. */
  method Log(log: SysLog, con: Console, printImmediately: bool, str: seq<char>, args: seq<Arg>)
    requires log.Valid() && con.Valid() && NUL !in str && ArgsMatch(str, args) && !EndsBare(str)
    requires log.buffer as object != con.video && log.flatBuffer as object != con.video
    modifies log, log.buffer, con`outX, con`outY, con`printColor, con`posX, con`posY, con.video
    ensures log.Valid() && log.history == old(log.history) + Formatted(str, args)
    ensures con.Valid()
    ensures con.Cursor() ==
            if printImmediately then Type(old(con.Cursor()), con.color, Visible(Formatted(str, args)))
            else old(con.Cursor())
  {
    var portions := Vsprintf(str, args);
    AppendPortions(log, portions);
    if printImmediately {
      PrintPortions(con, portions);
    }
  }

  method AppendPortions(log: SysLog, portions: seq<seq<char>>)
    requires log.Valid()
    modifies log, log.buffer
    ensures log.Valid() && log.history == old(log.history) + Concat(portions)
  {
    ConcatEmpty();
    hide *;
    var n := 0;
    assert portions[..n] == [];
    while n < |portions|
      invariant 0 <= n <= |portions| && log.Valid()
      invariant log.history == old(log.history) + Concat(portions[..n])
    {
      TakePortion(portions, n);
      HistoryStep(old(log.history), Concat(portions[..n]), portions[n]);
      log.Append(portions[n]);
      n := n + 1;
    }
    assert portions[..n] == portions;
  }
}
