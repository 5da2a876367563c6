/** The shell's argument splitter, parse_args of core/shell.cpp. */
module ShellArgs {
  import opened Machine
  import opened CStrings

  const SPACE := ' '
  const QUOTE := '"'
  const BACKSLASH := '\\'
  const NULL := -1

  // ---- what a command line means

  function Begun(cur: Option<seq<char>>): seq<char> {
    if cur.Some? then cur.value else []
  }

  /** The arguments in the rest s of a line; cur is the argument being read, if one was begun. */
  function Parse(s: seq<char>, quoted: bool, cur: Option<seq<char>>): seq<seq<char>>
    decreases |s|
  {
    if s == [] then
      if cur.Some? then [cur.value] else []
    else if s[0] == SPACE && !quoted then
      (if cur.Some? then [cur.value] else []) + Parse(s[1..], false, None)
    else if s[0] == QUOTE then Parse(s[1..], !quoted, cur)
    else if s[0] == BACKSLASH then
      if |s| == 1 then [Begun(cur)]
      else Parse(s[2..], quoted, Some(if s[1] in {QUOTE, BACKSLASH} then Begun(cur) + [s[1]] else Begun(cur)))
    else Parse(s[1..], quoted, Some(Begun(cur) + [s[0]]))
  }

  function Arguments(line: seq<char>): seq<seq<char>> {
    Parse(line, false, None)
  }

  // ---- writing arguments so that they are read back

  function Escape(a: seq<char>): seq<char> {
    if a == [] then []
    else EscapeChar(a[0]) + Escape(a[1..])
  }

  function Quoted(a: seq<char>): seq<char> {
    [QUOTE] + Escape(a) + [QUOTE]
  }

  function Join(args: seq<seq<char>>): seq<char> {
    if args == [] then []
    else if |args| == 1 then Quoted(args[0])
    else Quoted(args[0]) + [SPACE] + Join(args[1..])
  }

  function NonEmpty(args: seq<seq<char>>): seq<seq<char>> {
    if args == [] then []
    else (if args[0] == [] then [] else [args[0]]) + NonEmpty(args[1..])
  }

  function EscapeChar(c: char): seq<char> {
    if c in {QUOTE, BACKSLASH} then [BACKSLASH, c] else [c]
  }

  lemma ParseEscapedChar(c: char, tail: seq<char>, cur: Option<seq<char>>)
    ensures Parse(EscapeChar(c) + tail, true, cur) == Parse(tail, true, Some(Begun(cur) + [c]))
  {
    var whole := EscapeChar(c) + tail;
    if c in {QUOTE, BACKSLASH} {
      assert whole[0] == BACKSLASH && whole[1] == c && whole[2..] == tail;
    } else {
      assert whole[0] == c && whole[1..] == tail;
    }
  }

  lemma BegunSplit(begun: seq<char>, a: seq<char>)
    requires a != []
    ensures begun + [a[0]] + a[1..] == begun + a
    ensures a[1..] == [] ==> begun + [a[0]] == begun + a
  {
    assert a == [a[0]] + a[1..];
  }

  /** Inside quotes an escaped text is read as the text itself. */
  lemma {:induction false} ParseEscaped(a: seq<char>, rest: seq<char>, cur: Option<seq<char>>)
    ensures Parse(Escape(a) + rest, true, cur) == Parse(rest, true, if a == [] then cur else Some(Begun(cur) + a))
    decreases |a|
  {
    hide Parse, EscapeChar;
    if a == [] {
      assert Escape(a) + rest == rest;
    } else {
      var tail := Escape(a[1..]) + rest;
      var next := Some(Begun(cur) + [a[0]]);
      assert Escape(a) + rest == EscapeChar(a[0]) + tail;
      ParseEscapedChar(a[0], tail, cur);
      ParseEscaped(a[1..], rest, next);
      BegunSplit(Begun(cur), a);
    }
  }

  lemma ParseQuoted(a: seq<char>, rest: seq<char>)
    ensures Parse(Quoted(a) + rest, false, None) == Parse(rest, false, if a == [] then None else Some(a))
  {
    var whole := Quoted(a) + rest;
    var inner := Escape(a) + ([QUOTE] + rest);
    assert whole[0] == QUOTE && whole[1..] == inner;
    ParseEscaped(a, [QUOTE] + rest, None);
    assert ([QUOTE] + rest)[1..] == rest;
    assert [] + a == a;
  }

  /** A list written quoted, escaped and joined is read back without its empty members. */
  lemma {:induction false} JoinRoundTrip(args: seq<seq<char>>)
    ensures Arguments(Join(args)) == NonEmpty(args)
  {
    if |args| == 1 {
      ParseQuoted(args[0], []);
      assert Quoted(args[0]) + [] == Quoted(args[0]);
      assert NonEmpty(args[1..]) == [];
    } else if |args| > 1 {
      JoinRoundTrip(args[1..]);
      var rest := [SPACE] + Join(args[1..]);
      ParseQuoted(args[0], rest);
      assert Quoted(args[0]) + [SPACE] + Join(args[1..]) == Quoted(args[0]) + rest;
      assert rest[0] == SPACE && rest[1..] == Join(args[1..]);
    }
  }

  lemma {:induction false} NonEmptySame(args: seq<seq<char>>)
    ensures |NonEmpty(args)| <= |args|
    ensures NonEmpty(args) == args <==> [] !in args
  {
    if args != [] {
      NonEmptySame(args[1..]);
      assert args == [args[0]] + args[1..];
    }
  }

  /** Reading undoes writing exactly for the lists without an empty argument. */
  lemma ParserInvertsPrinter(args: seq<seq<char>>)
    ensures Arguments(Join(args)) == args <==> [] !in args
  {
    JoinRoundTrip(args);
    NonEmptySame(args);
  }

  // ---- the same by position: what each character of a line does

  /** The backslashes that stand right before position i. */
  function BackslashesBefore(line: seq<char>, i: nat): nat
    requires i <= |line|
  {
    if i > 0 && line[i - 1] == BACKSLASH then 1 + BackslashesBefore(line, i - 1) else 0
  }

  predicate IsEscaped(line: seq<char>, i: nat)
    requires i <= |line|
  {
    BackslashesBefore(line, i) % 2 == 1
  }

  /** The quotes before position i that open or close. */
  function QuotesBefore(line: seq<char>, i: nat): nat
    requires i <= |line|
  {
    if i == 0 then 0
    else QuotesBefore(line, i - 1) + if line[i - 1] == QUOTE && !IsEscaped(line, i - 1) then 1 else 0
  }

  /** A space that separates arguments: not escaped, and outside quotes. */
  predicate IsBreak(line: seq<char>, i: nat)
    requires i < |line|
  {
    line[i] == SPACE && !IsEscaped(line, i) && QuotesBefore(line, i) % 2 == 0
  }

  /** What position i adds to its argument: of escaped characters only quotes and backslashes are kept. */
  function Kept(line: seq<char>, i: nat): seq<char>
    requires i < |line|
  {
    if IsEscaped(line, i) == (line[i] in {QUOTE, BACKSLASH}) && !IsBreak(line, i) then [line[i]] else []
  }

  /** Whatever is neither a break nor a quote that opens or closes makes an argument, be it empty. */
  predicate Makes(line: seq<char>, i: nat)
    requires i < |line|
  {
    !IsBreak(line, i) && (line[i] == QUOTE ==> IsEscaped(line, i))
  }

  function KeptText(line: seq<char>, a: nat, b: nat): seq<char>
    requires a <= b <= |line|
  {
    if a == b then [] else KeptText(line, a, b - 1) + Kept(line, b - 1)
  }

  predicate HasArgument(line: seq<char>, a: nat, b: nat)
    requires a <= b <= |line|
  {
    exists i :: a <= i < b && Makes(line, i)
  }

  /** The first break from position a on, or the end of the line. */
  function NextBreak(line: seq<char>, a: nat): (b: nat)
    requires a <= |line|
    ensures a <= b <= |line| && (b < |line| ==> IsBreak(line, b)) && forall i :: a <= i < b ==> !IsBreak(line, i)
    decreases |line| - a
  {
    if a == |line| || IsBreak(line, a) then a else NextBreak(line, a + 1)
  }

  function ArgumentOf(line: seq<char>, a: nat, b: nat): Option<seq<char>>
    requires a <= b <= |line|
  {
    if HasArgument(line, a, b) then Some(KeptText(line, a, b)) else None
  }

  function Listed(arg: Option<seq<char>>): seq<seq<char>> {
    if arg.Some? then [arg.value] else []
  }

  /** The arguments between the breaks of a line from position a on. */
  function Pieces(line: seq<char>, a: nat): seq<seq<char>>
    requires a <= |line|
    decreases |line| - a
  {
    var b := NextBreak(line, a);
    Listed(ArgumentOf(line, a, b)) + if b == |line| then [] else Pieces(line, b + 1)
  }

  /** One more position that is no break. */
  lemma ArgumentGrows(line: seq<char>, a: nat, i: nat)
    requires a <= i < |line|
    ensures var cur, next := ArgumentOf(line, a, i), ArgumentOf(line, a, i + 1);
            next == if Makes(line, i) then Some(Begun(cur) + Kept(line, i)) else cur
  {
    hide IsBreak, IsEscaped, HasArgument;
    MadeBefore(line, a, i);
    NothingMade(line, a, i);
    var text := KeptText(line, a, i);
    assert text + [] == text && [] + Kept(line, i) == Kept(line, i);
    assert !Makes(line, i) ==> Kept(line, i) == [];
  }

  lemma MadeBefore(line: seq<char>, a: nat, i: nat)
    requires a <= i < |line|
    ensures HasArgument(line, a, i + 1) <==> HasArgument(line, a, i) || Makes(line, i)
  {
    hide Makes;
  }

  /** Without an argument nothing is kept. */
  lemma {:induction false} NothingMade(line: seq<char>, a: nat, i: nat)
    requires a <= i <= |line|
    ensures !HasArgument(line, a, i) ==> KeptText(line, a, i) == []
    decreases i - a
  {
    if a < i {
      NothingMade(line, a, i - 1);
      MadeBefore(line, a, i - 1);
    }
  }

  /** The escapes and quotes behind a character that is not itself escaped. */
  lemma StateAfter(line: seq<char>, i: nat)
    requires i < |line| && !IsEscaped(line, i)
    ensures line[i] != BACKSLASH ==> !IsEscaped(line, i + 1)
    ensures line[i] == BACKSLASH ==> IsEscaped(line, i + 1)
    ensures line[i] == BACKSLASH && i + 1 < |line| ==>
              !IsEscaped(line, i + 2) && QuotesBefore(line, i + 2) == QuotesBefore(line, i)
    ensures QuotesBefore(line, i + 1) == QuotesBefore(line, i) + if line[i] == QUOTE then 1 else 0
  {
  }

  /** No argument ends in positions a to i. */
  predicate NoBreak(line: seq<char>, a: nat, i: nat)
    requires a <= i <= |line|
  {
    forall j :: a <= j < i ==> !IsBreak(line, j)
  }

  /** Behind an argument: a break, or the end of the line. */
  lemma PiecesAt(line: seq<char>, a: nat, i: nat)
    requires a <= i <= |line| && NoBreak(line, a, i) && (i < |line| ==> IsBreak(line, i))
    ensures Pieces(line, a) ==
            Listed(ArgumentOf(line, a, i)) + if i == |line| then [] else Pieces(line, i + 1)
  {
    hide IsBreak, ArgumentOf, Listed;
  }

  /** What an unescaped character does. */
  lemma UnescapedAt(line: seq<char>, a: nat, i: nat)
    requires a <= i < |line| && !IsEscaped(line, i) && NoBreak(line, a, i)
    ensures IsBreak(line, i) <==> line[i] == SPACE && QuotesBefore(line, i) % 2 == 0
    ensures NoBreak(line, a, i + 1) <==> !IsBreak(line, i)
    ensures line[i] == QUOTE ==> !Makes(line, i)
    ensures line[i] == BACKSLASH ==> Makes(line, i) && Kept(line, i) == []
    ensures line[i] !in {QUOTE, BACKSLASH} && !IsBreak(line, i) ==> Makes(line, i) && Kept(line, i) == [line[i]]
  {
    hide IsEscaped, QuotesBefore;
  }

  /** What an escaped character does. */
  lemma EscapedAt(line: seq<char>, a: nat, i: nat)
    requires a <= i < |line| && IsEscaped(line, i) && NoBreak(line, a, i)
    ensures NoBreak(line, a, i + 1) && Makes(line, i)
    ensures Kept(line, i) == if line[i] in {QUOTE, BACKSLASH} then [line[i]] else []
  {
    hide IsEscaped, QuotesBefore;
  }

  /** From position i on, in the middle of an argument that starts behind the last break. */
  lemma {:induction false} ParsePieces(line: seq<char>, a: nat, i: nat)
    requires a <= i <= |line| && !IsEscaped(line, i) && NoBreak(line, a, i)
    ensures Parse(line[i..], QuotesBefore(line, i) % 2 == 1, ArgumentOf(line, a, i)) == Pieces(line, a)
    decreases |line| - i, 1
  {
    hide Parse, QuotesBefore, ArgumentOf, IsEscaped, IsBreak, Makes, Kept, Pieces, NoBreak;
    var quoted, cur := QuotesBefore(line, i) % 2 == 1, ArgumentOf(line, a, i);
    if i == |line| {
      PiecesAt(line, a, i);
      ParseEnd(line, i, quoted, cur);
    } else {
      ParseAt(line, i, quoted, cur);
      StateAfter(line, i);
      ArgumentGrows(line, a, i);
      UnescapedAt(line, a, i);
      if IsBreak(line, i) {
        PiecesAt(line, a, i);
        NoneYet(line, i + 1);
        ParsePieces(line, i + 1, i + 1);
      } else if line[i] == BACKSLASH {
        ParseEscape(line, a, i);
      } else {
        ParsePieces(line, a, i + 1);
      }
    }
  }

  /** A backslash and the character it escapes, if there is one. */
  lemma {:induction false} ParseEscape(line: seq<char>, a: nat, i: nat)
    requires a <= i < |line| && !IsEscaped(line, i) && NoBreak(line, a, i) && line[i] == BACKSLASH
    ensures Parse(line[i..], QuotesBefore(line, i) % 2 == 1, ArgumentOf(line, a, i)) == Pieces(line, a)
    decreases |line| - i, 0
  {
    hide Parse, QuotesBefore, ArgumentOf, IsEscaped, IsBreak, Makes, Kept, Pieces, NoBreak;
    var quoted, cur := QuotesBefore(line, i) % 2 == 1, ArgumentOf(line, a, i);
    ParseAt(line, i, quoted, cur);
    StateAfter(line, i);
    ArgumentGrows(line, a, i);
    UnescapedAt(line, a, i);
    assert Begun(cur) + [] == Begun(cur);
    if i + 1 == |line| {
      PiecesAt(line, a, i + 1);
    } else {
      ArgumentGrows(line, a, i + 1);
      EscapedAt(line, a, i + 1);
      ParsePieces(line, a, i + 2);
    }
  }

  lemma NoneYet(line: seq<char>, a: nat)
    requires a <= |line|
    ensures ArgumentOf(line, a, a) == None && NoBreak(line, a, a)
  {
  }

  /**
    For every line, the arguments are what its characters make of it: separated by the spaces that are neither escaped
    nor in quotes, without the quotes and backslashes that are not escaped and without other escaped characters.
   */
  lemma ArgumentsByPosition(line: seq<char>)
    ensures Arguments(line) == Pieces(line, 0)
  {
    NoneYet(line, 0);
    assert line[0..] == line;
    hide Parse, Pieces, ArgumentOf;
    ParsePieces(line, 0, 0);
  }

  // ---- the parser over buffers

  /** The C string a at position p of the content buffer. */
  ghost predicate StoredAt(content: seq<char>, p: int, a: seq<char>) {
    0 <= p && p + |a| < |content| && content[p..p + |a|] == a && content[p + |a|] == NUL
  }

  /** The arguments args are stored in the first end characters of content, at the positions in argv. */
  ghost predicate Stored(content: seq<char>, end: int, argv: seq<int>, args: seq<seq<char>>) {
    && |args| <= |argv| && end <= |content|
    && forall k :: 0 <= k < |args| ==> StoredAt(content, argv[k], args[k]) && argv[k] + |args[k]| < end
  }

  /** The argument being read occupies the content from cur to dest. */
  ghost predicate Reading(content: seq<char>, cur: int, dest: int, a: Option<seq<char>>) {
    && 0 <= dest <= |content|
    && (cur == NULL <==> a.None?)
    && (a.Some? ==> 0 <= cur && cur + |a.value| == dest && content[cur..dest] == a.value)
  }

  /** Where the finished arguments end: before the argument being read. */
  function Finished(cur: int, dest: int): int {
    if cur == NULL then dest else cur
  }

  /** One step of the parser at position i of the line. */
  lemma ParseAt(line: seq<char>, i: nat, quoted: bool, cur: Option<seq<char>>)
    requires i < |line|
    ensures var s, ch := line[i..], line[i];
            Parse(s, quoted, cur) ==
            if ch == SPACE && !quoted then (if cur.Some? then [cur.value] else []) + Parse(line[i + 1..], false, None)
            else if ch == QUOTE then Parse(line[i + 1..], !quoted, cur)
            else if ch == BACKSLASH then
              if i + 1 == |line| then [Begun(cur)]
              else
                var kept := if line[i + 1] in {QUOTE, BACKSLASH} then Begun(cur) + [line[i + 1]] else Begun(cur);
                Parse(line[i + 2..], quoted, Some(kept))
            else Parse(line[i + 1..], quoted, Some(Begun(cur) + [ch]))
  {
    var s := line[i..];
    assert s[0] == line[i] && s[1..] == line[i + 1..];
    if i + 1 < |line| {
      assert s[1] == line[i + 1] && s[2..] == line[i + 2..];
    }
  }

  /** A character is added to the argument being read. */
  lemma CharStored(content: seq<char>, cur: int, dest: nat, argv: seq<int>, args: seq<seq<char>>, a: seq<char>, ch: char)
    requires dest < |content| && cur != NULL
    requires Stored(content, Finished(cur, dest), argv, args) && Reading(content, cur, dest, Some(a))
    ensures var content' := content[dest := ch];
            Stored(content', Finished(cur, dest + 1), argv, args) && Reading(content', cur, dest + 1, Some(a + [ch]))
  {
    var content' := content[dest := ch];
    forall k | 0 <= k < |args| ensures StoredAt(content', argv[k], args[k]) {
      assert StoredAt(content, argv[k], args[k]);
      assert content'[argv[k]..argv[k] + |args[k]|] == content[argv[k]..argv[k] + |args[k]|];
    }
    assert content'[cur..dest + 1] == content[cur..dest] + [ch];
  }

  /** The argument being read is closed with a NUL and entered in argv. */
  lemma ArgStored(content: seq<char>, cur: int, dest: nat, argv: seq<int>, args: seq<seq<char>>, a: seq<char>)
    requires dest < |content| && cur != NULL && |args| < |argv|
    requires Stored(content, Finished(cur, dest), argv, args) && Reading(content, cur, dest, Some(a))
    ensures var content', argv' := content[dest := NUL], argv[|args| := cur];
            Stored(content', dest + 1, argv', args + [a]) && Reading(content', NULL, dest + 1, None)
  {
    var content', argv' := content[dest := NUL], argv[|args| := cur];
    forall k | 0 <= k < |args| ensures StoredAt(content', argv'[k], args[k]) {
      assert StoredAt(content, argv[k], args[k]);
      assert content'[argv[k]..argv[k] + |args[k]|] == content[argv[k]..argv[k] + |args[k]|];
    }
    assert content'[cur..dest] == a;
    assert StoredAt(content', cur, a);
  }

  method StoreChar(outContent: array<char>, ghost cur: int, destIdx: nat, ch: char, ghost argv: seq<int>,
                   ghost args: seq<seq<char>>, ghost a: seq<char>)
    requires destIdx < outContent.Length && cur != NULL
    requires Stored(outContent[..], Finished(cur, destIdx), argv, args) && Reading(outContent[..], cur, destIdx, Some(a))
    modifies outContent
    ensures Stored(outContent[..], Finished(cur, destIdx + 1), argv, args)
    ensures Reading(outContent[..], cur, destIdx + 1, Some(a + [ch]))
  {
    hide Stored, Reading;
    CharStored(outContent[..], cur, destIdx, argv, args, a, ch);
    ghost var before := outContent[..];
    outContent[destIdx] := ch;
    assert outContent[..] == before[destIdx := ch];
  }

  method FinishArg(outContent: array<char>, outArgv: array<int>, curArg: int, destIdx: nat, argc: nat,
                   ghost args: seq<seq<char>>, ghost a: seq<char>)
    requires destIdx < outContent.Length && curArg != NULL && argc == |args| < outArgv.Length
    requires Stored(outContent[..], Finished(curArg, destIdx), outArgv[..], args)
    requires Reading(outContent[..], curArg, destIdx, Some(a))
    modifies outContent, outArgv
    ensures Stored(outContent[..], destIdx + 1, outArgv[..], args + [a])
    ensures Reading(outContent[..], NULL, destIdx + 1, None)
  {
    hide Stored, Reading;
    ArgStored(outContent[..], curArg, destIdx, outArgv[..], args, a);
    ghost var content, argv := outContent[..], outArgv[..];
    outContent[destIdx] := NUL;
    assert outContent[..] == content[destIdx := NUL];
    outArgv[argc] := curArg;
    assert outArgv[..] == argv[|args| := curArg];
  }

  lemma NothingStored(content: seq<char>, argv: seq<int>)
    ensures Stored(content, 0, argv, []) && Reading(content, NULL, 0, None)
  {
  }

  lemma BeginArg(content: seq<char>, dest: nat)
    requires Reading(content, NULL, dest, None)
    ensures Reading(content, dest, dest, Some([]))
  {
  }

  lemma Joined(args: seq<seq<char>>, a: seq<char>, rest: seq<seq<char>>)
    ensures args + ([a] + rest) == args + [a] + rest
  {
  }

  lemma ParseEnd(line: seq<char>, i: nat, quoted: bool, cur: Option<seq<char>>)
    requires i == |line|
    ensures Parse(line[i..], quoted, cur) == if cur.Some? then [cur.value] else []
  {
  }

  /** The first limit of all arguments are those finished and, if there is room, the one being read. */
  predicate Complete(all: seq<seq<char>>, args: seq<seq<char>>, cur: Option<seq<char>>, limit: nat) {
    |args| <= limit &&
    (if cur.Some? && |args| < limit then all == args + [cur.value]
     else |args| <= |all| && all[..|args|] == args && (|args| == limit || |all| == |args|))
  }

  lemma FullList(all: seq<seq<char>>, args: seq<seq<char>>, cur: Option<seq<char>>, limit: nat, rest: seq<seq<char>>)
    requires cur.Some? && all == args + ([cur.value] + rest) && |args| == limit
    ensures Complete(all, args, cur, limit)
  {
  }

  lemma WholeList(all: seq<seq<char>>, args: seq<seq<char>>, cur: Option<seq<char>>, limit: nat)
    requires all == args + (if cur.Some? then [cur.value] else []) && |args| <= limit
    ensures Complete(all, args, cur, limit)
  {
  }

  /** The NULL behind the last argument changes none of them. */
  lemma Terminated(content: seq<char>, end: nat, argv: seq<int>, args: seq<seq<char>>)
    requires Stored(content, end, argv, args) && |args| < |argv|
    ensures Stored(content, |content|, argv[|args| := NULL], args)
  {
    forall k | 0 <= k < |args| ensures StoredAt(content, argv[|args| := NULL][k], args[k]) {
      assert StoredAt(content, argv[k], args[k]);
    }
  }

  method ParseArgs(source: seq<char>, outContent: array<char>, maxOutArgv: int, outArgv: array<int>, outArgc: int)
    returns (argc: int)
    requires NUL !in source && |source| < outContent.Length && maxOutArgv <= outArgv.Length
    modifies outContent, outArgv
    ensures maxOutArgv < 1 ==> argc == outArgc && outContent[..] == old(outContent[..]) && outArgv[..] == old(outArgv[..])
    ensures maxOutArgv >= 1 ==>
              && argc == Min(maxOutArgv - 1, |Arguments(source)|)
              && Stored(outContent[..], outContent.Length, outArgv[..], Arguments(source)[..argc])
              && outArgv[argc] == NULL
  {
    if maxOutArgv < 1 {
      return outArgc;
    }
    var limit := maxOutArgv - 1;
    var curArg, destIdx;
    ghost var args, cur;
    curArg, destIdx, argc, args, cur := ScanArgs(source, outContent, limit, outArgv);
    argc := CloseList(outContent, outArgv, curArg, destIdx, argc, limit, args, cur, Arguments(source));
  }

  /** The loop of parse_args. */
  method ScanArgs(source: seq<char>, outContent: array<char>, limit: nat, outArgv: array<int>)
    returns (curArg: int, destIdx: nat, argc: nat, ghost args: seq<seq<char>>, ghost cur: Option<seq<char>>)
    requires NUL !in source && |source| < outContent.Length && limit < outArgv.Length
    modifies outContent, outArgv
    ensures NULL <= curArg && destIdx <= |source| && argc == |args| <= limit && (curArg == NULL <==> cur.None?)
    ensures Stored(outContent[..], Finished(curArg, destIdx), outArgv[..], args)
    ensures Reading(outContent[..], curArg, destIdx, cur)
    ensures Complete(Arguments(source), args, cur, limit)
  {
    hide Parse, Stored, Reading, Complete;
    curArg, argc, destIdx := NULL, 0, 0;
    var hasOpenedQuotes := false;
    args, cur := [], None;
    ghost var complete := false;
    ghost var all := Arguments(source);
    var i := 0;
    NothingStored(outContent[..], outArgv[..]);
    assert source[0..] == source;
    while i < |source|
      invariant NULL <= curArg && 0 <= i <= |source| && 0 <= destIdx <= i
      invariant argc == |args| <= limit && (curArg == NULL <==> cur.None?)
      invariant Stored(outContent[..], Finished(curArg, destIdx), outArgv[..], args)
      invariant Reading(outContent[..], curArg, destIdx, cur)
      invariant all == args + Parse(source[i..], hasOpenedQuotes, cur)
      invariant !complete
    {
      ParseAt(source, i, hasOpenedQuotes, cur);
      var ch := source[i];
      if ch == SPACE && !hasOpenedQuotes {
        if curArg != NULL {
          if argc >= limit {
            FullList(all, args, cur, limit, Parse(source[i + 1..], false, None));
            complete := true;
            break;
          }
          Joined(args, cur.value, Parse(source[i + 1..], false, None));
          FinishArg(outContent, outArgv, curArg, destIdx, argc, args, cur.value);
          destIdx := destIdx + 1;
          argc := argc + 1;
          curArg := NULL;
          args, cur := args + [cur.value], None;
        }
        i := i + 1;
        continue;
      } else if ch == QUOTE {
        hasOpenedQuotes := !hasOpenedQuotes;
        i := i + 1;
        continue;
      }
      if curArg == NULL {
        BeginArg(outContent[..], destIdx);
        curArg := destIdx;
        cur := Some([]);
      }
      if ch == BACKSLASH {
        i := i + 1;
        if i == |source| {
          WholeList(all, args, cur, limit);
          complete := true;
          break;
        }
        ch := source[i];
        if ch == QUOTE || ch == BACKSLASH {
          StoreChar(outContent, curArg, destIdx, ch, outArgv[..], args, cur.value);
          destIdx := destIdx + 1;
          cur := Some(cur.value + [ch]);
        }
        i := i + 1;
        continue;
      }
      StoreChar(outContent, curArg, destIdx, ch, outArgv[..], args, cur.value);
      destIdx := destIdx + 1;
      cur := Some(cur.value + [ch]);
      i := i + 1;
    }
    if !complete {
      ParseEnd(source, i, hasOpenedQuotes, cur);
      WholeList(all, args, cur, limit);
    }
  }

  /** The end of parse_args: the argument being read, when there is room for it, and the terminating NULL. */
  method CloseList(outContent: array<char>, outArgv: array<int>, curArg: int, destIdx: nat, argc0: nat, limit: nat,
                   ghost args0: seq<seq<char>>, ghost cur: Option<seq<char>>, ghost all: seq<seq<char>>)
    returns (argc: nat)
    requires NULL <= curArg && destIdx < outContent.Length && (curArg == NULL <==> cur.None?)
    requires argc0 == |args0| <= limit < outArgv.Length
    requires Stored(outContent[..], Finished(curArg, destIdx), outArgv[..], args0)
    requires Reading(outContent[..], curArg, destIdx, cur)
    requires Complete(all, args0, cur, limit)
    modifies outContent, outArgv
    ensures argc == Min(limit, |all|)
    ensures Stored(outContent[..], outContent.Length, outArgv[..], all[..argc]) && outArgv[argc] == NULL
  {
    hide Stored, Reading;
    argc := argc0;
    ghost var end, args := Finished(curArg, destIdx), args0;
    if curArg != NULL && argc < limit {
      FinishArg(outContent, outArgv, curArg, destIdx, argc, args, cur.value);
      args, end := args + [cur.value], destIdx + 1;
      argc := argc + 1;
    }
    assert args == all[..argc];
    Terminated(outContent[..], end, outArgv[..], args);
    ghost var argv := outArgv[..];
    outArgv[argc] := NULL;
    assert outArgv[..] == argv[argc := NULL];
  }
}
