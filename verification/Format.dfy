/** vsprintf and its two consumers: what a format means, the portions emitted, the bounded copy and the log. */
module Format {
  import opened CStrings
  import opened Machine
  import opened Numbers

  const PERCENT := '%'

  /** One variadic argument. */
  datatype Arg =
    | Int(i: int)
    | Uint(u: nat)
    | Pointer(p: nat)
    | Long(l: nat)
    | Char(c: char)
    | Str(s: seq<char>)

  /** How many characters after a % name a specifier; 0 when they name none. */
  function SpecLength(rest: seq<char>): (k: nat)
    ensures k <= |rest|
  {
    if rest == [] then 0
    else if rest[0] in "diuxpcs" then 1
    else if |rest| >= 3 && rest[..3] == "llx" then 3
    else 0
  }

  predicate Accepts(spec: char, arg: Arg) {
    match arg
    case Int(i) => spec in "di" && -TWO_31 <= i < TWO_31
    case Uint(u) => spec in "ux" && u < TWO_32
    case Pointer(p) => spec == 'p' && p < TWO_32
    case Long(l) => spec == 'l' && l < TWO_32 * TWO_32
    case Char(c) => spec == 'c'
    case Str(s) => spec == 's'
  }

  function Rendered(spec: char, arg: Arg): seq<char>
    requires Accepts(spec, arg)
  {
    match arg
    case Int(i) => SignedText(i, 10)
    case Uint(u) => if spec == 'u' then UnsignedText(u, 10) else HexText(u, 8)
    case Pointer(p) => "0x" + HexText(p, 8)
    case Long(l) => HexText(l, 16)
    case Char(c) => [c]
    case Str(s) => CString(s)
  }

  /** What is left of a format after the % at its start and what belongs to it. */
  function AfterPercent(fmt: seq<char>): (r: seq<char>)
    requires |fmt| > 1
    ensures |r| < |fmt|
  {
    var k := SpecLength(fmt[1..]);
    fmt[1 + if k == 0 then 1 else k..]
  }

  /** A lone % is left at the end. */
  predicate EndsBare(fmt: seq<char>)
    decreases |fmt|
  {
    if fmt == [] then false
    else if fmt[0] != PERCENT then EndsBare(fmt[1..])
    else |fmt| == 1 || EndsBare(AfterPercent(fmt))
  }

  /** The arguments are there, in order and of the right kind. */
  predicate ArgsMatch(fmt: seq<char>, args: seq<Arg>)
    decreases |fmt|
  {
    if fmt == [] then true
    else if fmt[0] != PERCENT then ArgsMatch(fmt[1..], args)
    else if |fmt| == 1 then true
    else if SpecLength(fmt[1..]) == 0 then ArgsMatch(AfterPercent(fmt), args)
    else args != [] && Accepts(fmt[1], args[0]) && ArgsMatch(AfterPercent(fmt), args[1..])
  }

  /** The meaning of a format: an unknown specifier stands for itself. */
  function Formatted(fmt: seq<char>, args: seq<Arg>): seq<char>
    requires ArgsMatch(fmt, args) && !EndsBare(fmt)
    decreases |fmt|
  {
    if fmt == [] then []
    else if fmt[0] != PERCENT then [fmt[0]] + Formatted(fmt[1..], args)
    else if SpecLength(fmt[1..]) == 0 then fmt[..2] + Formatted(AfterPercent(fmt), args)
    else Rendered(fmt[1], args[0]) + Formatted(AfterPercent(fmt), args[1..])
  }

  // ---- when a format ends in a bare %

  function TrailingPercents(fmt: seq<char>): nat {
    if fmt == [] || fmt[|fmt| - 1] != PERCENT then 0 else 1 + TrailingPercents(fmt[..|fmt| - 1])
  }

  predicate AllPercents(s: seq<char>) {
    forall i :: 0 <= i < |s| ==> s[i] == PERCENT
  }

  lemma {:induction false} TrailingOf(a: seq<char>, b: seq<char>)
    ensures TrailingPercents(a + b) == if AllPercents(b) then |b| + TrailingPercents(a) else TrailingPercents(b)
    decreases |b|
  {
    if b == [] {
      assert a + b == a;
    } else {
      var t := b[..|b| - 1];
      assert (a + b)[..|a| + |b| - 1] == a + t;
      TrailingOf(a, t);
      assert AllPercents(b) <==> AllPercents(t) && b[|b| - 1] == PERCENT;
    }
  }

  /** A bare % is left exactly when the format ends in an odd number of them. */
  lemma {:induction false} EndsBareIsOdd(fmt: seq<char>)
    ensures EndsBare(fmt) <==> TrailingPercents(fmt) % 2 == 1
    decreases |fmt|
  {
    if fmt == [] {
    } else if fmt[0] != PERCENT {
      EndsBareIsOdd(fmt[1..]);
      SkipHead(fmt, 1);
    } else if |fmt| == 1 {
      assert fmt[..0] == [];
    } else {
      var rest := AfterPercent(fmt);
      EndsBareIsOdd(rest);
      SkipHead(fmt, |fmt| - |rest|);
    }
  }

  lemma SkipHead(fmt: seq<char>, k: nat)
    requires 0 < k <= |fmt| && (fmt[k - 1] != PERCENT || (k == 2 && fmt[0] == PERCENT))
    ensures TrailingPercents(fmt) % 2 == TrailingPercents(fmt[k..]) % 2
  {
    hide TrailingPercents;
    var head := fmt[..k];
    assert head[|head| - 1] == fmt[k - 1];
    assert fmt[k - 1] == PERCENT ==> head == [PERCENT, PERCENT];
    HeadPercents(head);
    hide *;
    assert fmt == head + fmt[k..];
    TrailingOf(head, fmt[k..]);
    TrailingAlone(fmt[k..]);
  }

  lemma HeadPercents(head: seq<char>)
    requires head != [] && (head[|head| - 1] == PERCENT ==> head == [PERCENT, PERCENT])
    ensures TrailingPercents(head) % 2 == 0
  {
    if head[|head| - 1] == PERCENT {
      assert head[..1] == [PERCENT] && [PERCENT][..0] == [];
      assert TrailingPercents([PERCENT]) == 1;
    }
  }

  lemma TrailingAlone(b: seq<char>)
    ensures AllPercents(b) ==> TrailingPercents(b) == |b|
  {
    TrailingOf([], b);
    assert [] + b == b;
  }

  // ---- reading a format in parts

  lemma PlainHead(c: char, fmt: seq<char>, args: seq<Arg>)
    requires c != PERCENT && ArgsMatch(fmt, args) && !EndsBare(fmt)
    ensures ArgsMatch([c] + fmt, args) && !EndsBare([c] + fmt)
    ensures Formatted([c] + fmt, args) == [c] + Formatted(fmt, args)
  {
    assert ([c] + fmt)[1..] == fmt;
  }

  /** Text without a % stands for itself. */
  lemma {:induction false} PlainText(text: seq<char>, fmt: seq<char>, args: seq<Arg>)
    requires PERCENT !in text && ArgsMatch(fmt, args) && !EndsBare(fmt)
    ensures ArgsMatch(text + fmt, args) && !EndsBare(text + fmt)
    ensures Formatted(text + fmt, args) == text + Formatted(fmt, args)
  {
    hide *;
    if text == [] {
      assert text + fmt == fmt;
      assert text + Formatted(fmt, args) == Formatted(fmt, args);
    } else {
      assert text[0] in text;
      PlainText(text[1..], fmt, args);
      PlainHead(text[0], text[1..] + fmt, args);
      assert [text[0]] + (text[1..] + fmt) == text + fmt;
    }
  }

  /** A number printed by sprintf is read back. */
  lemma PrintedIntReadsBack(value: int)
    requires -TWO_31 <= value < TWO_31
    ensures ArgsMatch("%d", [Int(value)]) && !EndsBare("%d")
    ensures ParsedSigned(Formatted("%d", [Int(value)]), 10) == value
  {
    var fmt := "%d";
    assert AfterPercent(fmt) == [];
    assert Formatted(fmt, [Int(value)]) == SignedText(value, 10) + [] == SignedText(value, 10);
    SignedRoundTrip(value, 10);
  }

  // ---- what each specifier prints

  /** The specifiers there are. */
  predicate IsSpecifier(spec: seq<char>) {
    spec == "d" || spec == "i" || spec == "u" || spec == "x" || spec == "p" || spec == "c" || spec == "s" || spec == "llx"
  }

  /** A specifier takes its argument and leaves the rest of the format the others. */
  lemma SpecifierHead(spec: seq<char>, arg: Arg, fmt: seq<char>, args: seq<Arg>)
    requires IsSpecifier(spec) && Accepts(spec[0], arg) && ArgsMatch(fmt, args) && !EndsBare(fmt)
    ensures ArgsMatch([PERCENT] + spec + fmt, [arg] + args) && !EndsBare([PERCENT] + spec + fmt)
    ensures Formatted([PERCENT] + spec + fmt, [arg] + args) == Rendered(spec[0], arg) + Formatted(fmt, args)
  {
    var whole := [PERCENT] + spec + fmt;
    assert whole[1..] == spec + fmt && (spec + fmt)[0] == spec[0];
    if spec == "llx" {
      assert (spec + fmt)[..3] == spec;
    }
    assert SpecLength(whole[1..]) == |spec|;
    assert AfterPercent(whole) == fmt;
    assert ([arg] + args)[0] == arg && ([arg] + args)[1..] == args;
    hide Rendered, Accepts, SpecLength, AfterPercent;
  }

  /** %d and %i: decimal, with a minus for a negative number. */
  lemma DecimalPrinted(spec: seq<char>, value: int, fmt: seq<char>, args: seq<Arg>)
    requires (spec == "d" || spec == "i") && -TWO_31 <= value < TWO_31
    requires ArgsMatch(fmt, args) && !EndsBare(fmt)
    ensures ArgsMatch([PERCENT] + spec + fmt, [Int(value)] + args) && !EndsBare([PERCENT] + spec + fmt)
    ensures Formatted([PERCENT] + spec + fmt, [Int(value)] + args) == SignedText(value, 10) + Formatted(fmt, args)
    ensures value < 0 ==> SignedText(value, 10)[..1] == "-" && IsNumeral(SignedText(value, 10)[1..], 10, -value)
    ensures value >= 0 ==> IsNumeral(SignedText(value, 10), 10, value)
  {
    SpecifierHead(spec, Int(value), fmt, args);
    SignedIsNumeral(value, 10);
  }

  /** %u: decimal. */
  lemma UnsignedPrinted(value: nat, fmt: seq<char>, args: seq<Arg>)
    requires value < TWO_32
    requires ArgsMatch(fmt, args) && !EndsBare(fmt)
    ensures ArgsMatch([PERCENT] + "u" + fmt, [Uint(value)] + args) && !EndsBare([PERCENT] + "u" + fmt)
    ensures Formatted([PERCENT] + "u" + fmt, [Uint(value)] + args) == UnsignedText(value, 10) + Formatted(fmt, args)
    ensures IsNumeral(UnsignedText(value, 10), 10, value)
  {
    SpecifierHead("u", Uint(value), fmt, args);
    UnsignedIsNumeral(value, 10);
  }

  /** %x: eight hexadecimal digits. */
  lemma HexPrinted(value: nat, fmt: seq<char>, args: seq<Arg>)
    requires value < TWO_32
    requires ArgsMatch(fmt, args) && !EndsBare(fmt)
    ensures ArgsMatch([PERCENT] + "x" + fmt, [Uint(value)] + args) && !EndsBare([PERCENT] + "x" + fmt)
    ensures Formatted([PERCENT] + "x" + fmt, [Uint(value)] + args) == HexText(value, 8) + Formatted(fmt, args)
    ensures IsHexField(HexText(value, 8), 8, value)
  {
    SpecifierHead("x", Uint(value), fmt, args);
    Pow16Words();
    HexIsField(value, 8);
  }

  /** %p: the same behind 0x. */
  lemma PointerPrinted(value: nat, fmt: seq<char>, args: seq<Arg>)
    requires value < TWO_32
    requires ArgsMatch(fmt, args) && !EndsBare(fmt)
    ensures ArgsMatch([PERCENT] + "p" + fmt, [Pointer(value)] + args) && !EndsBare([PERCENT] + "p" + fmt)
    ensures Formatted([PERCENT] + "p" + fmt, [Pointer(value)] + args) == ("0x" + HexText(value, 8)) + Formatted(fmt, args)
    ensures IsHexField(HexText(value, 8), 8, value)
  {
    SpecifierHead("p", Pointer(value), fmt, args);
    Pow16Words();
    HexIsField(value, 8);
  }

  /** %llx: sixteen hexadecimal digits. */
  lemma LongPrinted(value: nat, fmt: seq<char>, args: seq<Arg>)
    requires value < TWO_32 * TWO_32
    requires ArgsMatch(fmt, args) && !EndsBare(fmt)
    ensures ArgsMatch([PERCENT] + "llx" + fmt, [Long(value)] + args) && !EndsBare([PERCENT] + "llx" + fmt)
    ensures Formatted([PERCENT] + "llx" + fmt, [Long(value)] + args) == HexText(value, 16) + Formatted(fmt, args)
    ensures IsHexField(HexText(value, 16), 16, value)
  {
    SpecifierHead("llx", Long(value), fmt, args);
    Pow16Words();
    HexIsField(value, 16);
  }

  /** %c: the character, a NUL too. */
  lemma CharPrinted(c: char, fmt: seq<char>, args: seq<Arg>)
    requires ArgsMatch(fmt, args) && !EndsBare(fmt)
    ensures ArgsMatch([PERCENT] + "c" + fmt, [Char(c)] + args) && !EndsBare([PERCENT] + "c" + fmt)
    ensures Formatted([PERCENT] + "c" + fmt, [Char(c)] + args) == [c] + Formatted(fmt, args)
  {
    SpecifierHead("c", Char(c), fmt, args);
  }

  /** %s: the string, which is what stands before its NUL. */
  lemma StringPrinted(text: seq<char>, behind: seq<char>, fmt: seq<char>, args: seq<Arg>)
    requires NUL !in text
    requires ArgsMatch(fmt, args) && !EndsBare(fmt)
    ensures ArgsMatch([PERCENT] + "s" + fmt, [Str(text + [NUL] + behind)] + args) && !EndsBare([PERCENT] + "s" + fmt)
    ensures Formatted([PERCENT] + "s" + fmt, [Str(text + [NUL] + behind)] + args) == text + Formatted(fmt, args)
  {
    SpecifierHead("s", Str(text + [NUL] + behind), fmt, args);
    var s := text + [NUL] + behind;
    assert s[..|text|] == text;
    CStringIs(s, |text|);
  }

  /** Anything else behind a percent sign stands for itself with it, a second percent sign too. */
  lemma UnknownPrinted(c: char, fmt: seq<char>, args: seq<Arg>)
    requires c !in "diuxpcs" && !("llx" <= [c] + fmt) && ArgsMatch(fmt, args) && !EndsBare(fmt)
    ensures ArgsMatch([PERCENT, c] + fmt, args) && !EndsBare([PERCENT, c] + fmt)
    ensures Formatted([PERCENT, c] + fmt, args) == [PERCENT, c] + Formatted(fmt, args)
  {
    var whole := [PERCENT, c] + fmt;
    assert whole[1..] == [c] + fmt && ([c] + fmt)[0] == c && whole[..2] == [PERCENT, c];
    assert AfterPercent(whole) == fmt;
  }

  // ---- the temporary buffer

  function Pow10(n: nat): nat {
    if n == 0 then 1 else 10 * Pow10(n - 1)
  }

  lemma {:induction false} DigitsShort(value: nat, n: nat)
    requires value < Pow10(n)
    ensures |Digits(value, 10)| <= n
  {
    if value > 0 {
      DigitsUnfold(value, 10);
      DigitsShort(value / 10, n - 1);
    }
  }

  lemma TextFits(value: int)
    requires -TWO_31 <= value < TWO_32
    ensures 0 <= value ==> |UnsignedText(value, 10)| <= 10
    ensures value < TWO_31 ==> |SignedText(value, 10)| <= 11
  {
    assert Pow10(4) == 10000 && Pow10(8) == 100000000;
    assert Pow10(10) > TWO_32;
    var u := if value < 0 then -value else value;
    DigitsShort(u, 10);
  }

  lemma {:induction false} DigitsPrintable(value: nat, base: Base)
    ensures NUL !in Digits(value, base)
  {
    if value > 0 {
      DigitsUnfold(value, base);
      DigitsPrintable(value / base, base);
    }
  }

  lemma TextPrintable(value: int)
    ensures 0 <= value ==> NUL !in UnsignedText(value, 10)
    ensures NUL !in SignedText(value, 10)
  {
    if value >= 0 {
      DigitsPrintable(value, 10);
    }
    DigitsPrintable(ToUint32(value), 10);
    DigitsPrintable(ToUint32(ToInt32(-value)), 10);
  }

  lemma StoredString(buffer: seq<char>, text: seq<char>)
    requires Stored(buffer, 0, text) && NUL !in text
    ensures CString(buffer) == text
  {
    assert buffer[0..|text|] == buffer[..|text|];
    CStringIs(buffer, |text|);
  }

  /** A NUL is never handed to the callback together with anything else. */
  predicate IsPortion(p: seq<char>) {
    NUL !in p || p == [NUL]
  }

  predicate ArePortions(portions: seq<seq<char>>) {
    forall i :: 0 <= i < |portions| ==> IsPortion(portions[i])
  }

  lemma {:induction false} HexPrintable(value: nat, width: nat)
    ensures NUL !in HexText(value, width)
  {
    if width > 0 {
      HexPrintable(value / 16, width - 1);
    }
  }

  lemma RenderedIsPortion(spec: char, arg: Arg)
    requires Accepts(spec, arg)
    ensures IsPortion(Rendered(spec, arg))
  {
    match arg
    case Int(i) => TextPrintable(i);
    case Uint(u) =>
      TextPrintable(u);
      HexPrintable(u, 8);
    case Pointer(p) => HexPrintable(p, 8);
    case Long(l) => HexPrintable(l, 16);
    case Char(c) =>
    case Str(s) =>
  }

  /** One known specifier: the text handed to the callback. */
  method Render(spec: char, arg: Arg) returns (portion: seq<char>)
    requires Accepts(spec, arg)
    ensures portion == Rendered(spec, arg)
  {
    var temp := new char[20];
    match arg
    case Int(i) =>
      TextFits(i);
      TextPrintable(i);
      IntToStr(i, temp, 0, 10);
      StoredString(temp[..], SignedText(i, 10));
      portion := CString(temp[..]);
    case Uint(u) =>
      if spec == 'u' {
        TextFits(u);
        TextPrintable(u);
        UintToStr(u, temp, 0, 10);
        StoredString(temp[..], UnsignedText(u, 10));
        portion := CString(temp[..]);
      } else {
        UintToHex(u, temp, 0, 8);
        portion := temp[0..8];
      }
    case Pointer(p) =>
      temp[0], temp[1] := '0', 'x';
      assert temp[..2] == "0x";
      UintToHex(p, temp, 2, 8);
      assert temp[..10] == temp[..2] + temp[2..10];
      portion := temp[..10];
    case Long(l) =>
      UintToHex(l, temp, 0, 16);
      portion := temp[0..16];
    case Char(c) =>
      portion := [c];
    case Str(s) =>
      portion := CString(s);
  }

  // ---- the portions

  function Concat(portions: seq<seq<char>>): seq<char> {
    if portions == [] then [] else Concat(portions[..|portions| - 1]) + portions[|portions| - 1]
  }

  lemma ConcatOne(portions: seq<seq<char>>, p: seq<char>)
    ensures Concat(portions + [p]) == Concat(portions) + p
  {
    assert (portions + [p])[..|portions|] == portions;
  }

  /** What is still owed once everything before position pos is accounted for. */
  ghost predicate Owed(source: seq<char>, args: seq<Arg>, whole: seq<char>, done: seq<char>, pos: nat, used: nat) {
    && pos <= |source| && used <= |args|
    && ArgsMatch(source[pos..], args[used..]) && !EndsBare(source[pos..])
    && whole == done + Formatted(source[pos..], args[used..])
  }

  lemma OwedStart(source: seq<char>, args: seq<Arg>)
    requires ArgsMatch(source, args) && !EndsBare(source)
    ensures Owed(source, args, Formatted(source, args), [], 0, 0)
  {
    assert source[0..] == source && args[0..] == args;
  }

  lemma OwedEnd(source: seq<char>, args: seq<Arg>, whole: seq<char>, done: seq<char>, used: nat)
    requires Owed(source, args, whole, done, |source|, used)
    ensures whole == done
  {
    assert source[|source|..] == [];
  }

  lemma OwedPlain(source: seq<char>, args: seq<Arg>, whole: seq<char>, done: seq<char>, pos: nat, used: nat)
    requires pos < |source| && source[pos] != PERCENT
    requires Owed(source, args, whole, done, pos, used)
    ensures Owed(source, args, whole, done + [source[pos]], pos + 1, used)
  {
    assert source[pos..][1..] == source[pos + 1..];
    hide ArgsMatch, EndsBare;
    assert done + ([source[pos]] + Formatted(source[pos + 1..], args[used..])) ==
           done + [source[pos]] + Formatted(source[pos + 1..], args[used..]);
  }

  lemma OwedUnknown(source: seq<char>, args: seq<Arg>, whole: seq<char>, done: seq<char>, pos: nat, used: nat)
    requires pos < |source| && source[pos] == PERCENT && SpecLength(source[pos + 1..]) == 0
    requires Owed(source, args, whole, done, pos, used)
    ensures pos + 2 <= |source| && Owed(source, args, whole, done + source[pos..pos + 2], pos + 2, used)
  {
    var fmt := source[pos..];
    assert fmt[1..] == source[pos + 1..];
    assert AfterPercent(fmt) == source[pos + 2..] && fmt[..2] == source[pos..pos + 2];
    var rest := Formatted(source[pos + 2..], args[used..]);
    hide SpecLength;
    assert done + (fmt[..2] + rest) == done + fmt[..2] + rest;
  }

  lemma OwedSpec(source: seq<char>, args: seq<Arg>, whole: seq<char>, done: seq<char>, pos: nat, used: nat)
    requires pos < |source| && source[pos] == PERCENT && SpecLength(source[pos + 1..]) > 0
    requires Owed(source, args, whole, done, pos, used)
    ensures pos + 1 < |source| && used < |args| && Accepts(source[pos + 1], args[used])
    ensures Owed(source, args, whole, done + Rendered(source[pos + 1], args[used]),
                 pos + 1 + SpecLength(source[pos + 1..]), used + 1)
  {
    var fmt, k := source[pos..], SpecLength(source[pos + 1..]);
    assert fmt[1..] == source[pos + 1..];
    assert AfterPercent(fmt) == source[pos + 1 + k..];
    assert args[used..][1..] == args[used + 1..];
    var rest := Formatted(source[pos + 1 + k..], args[used + 1..]);
    var r := Rendered(source[pos + 1], args[used]);
    hide SpecLength, Rendered;
    assert done + (r + rest) == done + r + rest;
  }

  lemma SpecPlain(source: seq<char>, pos: nat, i: nat)
    requires pos < |source| && pos + 2 <= i < pos + 1 + SpecLength(source[pos + 1..])
    ensures i < |source| && source[i] != PERCENT
  {
    var rest := source[pos + 1..];
    assert rest[..3] == "llx" && source[i] == rest[..3][i - pos - 1];
  }

  /** The branch chain behind a %: which text it emits and how far it skips. */
  method Specifier(source: seq<char>, i: nat, arg: seq<Arg>) returns (portion: seq<char>, skip: int)
    requires i < |source|
    requires SpecLength(source[i..]) > 0 ==> arg != [] && Accepts(source[i], arg[0])
    ensures SpecLength(source[i..]) == 0 ==> skip == -1
    ensures SpecLength(source[i..]) > 0 ==> skip == SpecLength(source[i..]) && portion == Rendered(source[i], arg[0])
    ensures IsPortion(portion)
  {
    if SpecLength(source[i..]) > 0 {
      RenderedIsPortion(source[i], arg[0]);
    }
    hide IsPortion, Rendered;
    assert IsPortion([]) by { EmptyPortion(); }
    var ch := source[i];
    skip := -1;
    portion := [];
    if ch in "diuxpcs" {
      portion := Render(ch, arg[0]);
      skip := 1;
    } else if ch == 'l' {
      var size := Min(3, |source| - i);
      if size == 3 && source[i..i + size] == "llx" {
        assert source[i..][..3] == source[i..i + size];
        portion := Render(ch, arg[0]);
        skip := 3;
      }
      assert |source| - i >= 3 ==> source[i..][..3] == source[i..i + 3];
    }
  }

  lemma EmptyPortion()
    ensures IsPortion([])
  {
  }

  /** The portions, in order, make up the formatted text. */
  method Vsprintf(source: seq<char>, args: seq<Arg>) returns (portions: seq<seq<char>>)
    requires NUL !in source && ArgsMatch(source, args) && !EndsBare(source)
    ensures Concat(portions) == Formatted(source, args) && ArePortions(portions)
  {
    ghost var whole := Formatted(source, args);
    OwedStart(source, args);
    var start, i, used := 0, 0, 0;
    portions := [];
    hide Owed, SpecLength, Rendered, Concat, Formatted, ArgsMatch, EndsBare;
    assert Concat([]) == [] by { ConcatEmpty(); }
    while At(source, i) != NUL
      invariant 0 <= i <= |source| && 0 <= start <= |source| && 0 <= used <= |args|
      invariant start <= i ==> Owed(source, args, whole, Concat(portions) + source[start..i], i, used)
      invariant i < start ==> Owed(source, args, whole, Concat(portions), start, used)
      invariant forall k :: i <= k < start ==> source[k] != PERCENT
      invariant ArePortions(portions)
      decreases |source| - i
    {
      var ch := source[i];
      if ch != PERCENT {
        if start <= i {
          OwedPlain(source, args, whole, Concat(portions) + source[start..i], i, used);
          assert Concat(portions) + source[start..i] + [source[i]] == Concat(portions) + source[start..i + 1];
        } else if start == i + 1 {
          assert Concat(portions) + source[start..i + 1] == Concat(portions);
        }
        i := i + 1;
      } else {
        portions := Flush(source, portions, start, i);
        portions, start, i, used := AtPercent(source, args, whole, portions, i, used);
      }
    }
    portions := Flush(source, portions, start, i);
    OwedEnd(source, args, whole, Concat(portions), used);
  }

  lemma ConcatEmpty()
    ensures Concat([]) == []
  {
  }

  /** The literal text before a % goes out, if there is any. */
  method Flush(source: seq<char>, before: seq<seq<char>>, start: nat, i: nat) returns (portions: seq<seq<char>>)
    requires start <= i <= |source| && NUL !in source && ArePortions(before)
    ensures Concat(portions) == Concat(before) + source[start..i] && ArePortions(portions)
  {
    portions := before;
    if i != start {
      ConcatOne(portions, source[start..i]);
      portions := portions + [source[start..i]];
    }
  }

  lemma SpecEffect(source: seq<char>, args: seq<Arg>, whole: seq<char>, done: seq<char>, at: nat, used: nat)
    requires at < |source| && source[at] == PERCENT && Owed(source, args, whole, done, at, used)
    ensures at + 1 < |source| && used <= |args|
    ensures var k := SpecLength(source[at + 1..]);
            if k == 0 then at + 2 <= |source| && Owed(source, args, whole, done + source[at..at + 2], at + 2, used)
            else && used < |args| && Accepts(source[at + 1], args[used]) && at + 1 + k <= |source|
                 && Owed(source, args, whole, done + Rendered(source[at + 1], args[used]), at + 1 + k, used + 1)
                 && forall j :: at + 2 <= j < at + 1 + k ==> source[j] != PERCENT
  {
    NotLast(source, args, whole, done, at, used);
    hide Owed, SpecLength, Rendered, Accepts;
    if SpecLength(source[at + 1..]) == 0 {
      OwedUnknown(source, args, whole, done, at, used);
    } else {
      OwedSpec(source, args, whole, done, at, used);
      forall j | at + 2 <= j < at + 1 + SpecLength(source[at + 1..]) ensures source[j] != PERCENT {
        SpecPlain(source, at, j);
      }
    }
  }

  /** One turn of the loop at a %, the literal text before it already out. */
  method AtPercent(source: seq<char>, args: seq<Arg>, ghost whole: seq<char>, before: seq<seq<char>>, at: nat, taken: nat)
    returns (portions: seq<seq<char>>, start: nat, i: nat, used: nat)
    requires at < |source| && source[at] == PERCENT
    requires Owed(source, args, whole, Concat(before), at, taken) && ArePortions(before)
    ensures ArePortions(portions)
    ensures at < i <= |source| && start <= |source| && used <= |args|
    ensures start <= i ==> Owed(source, args, whole, Concat(portions) + source[start..i], i, used)
    ensures i < start ==> Owed(source, args, whole, Concat(portions), start, used)
    ensures forall k :: i <= k < start ==> source[k] != PERCENT
  {
    portions, used := before, taken;
    SpecEffect(source, args, whole, Concat(before), at, taken);
    hide *;
    var portion, skip := Specifier(source, at + 1, args[taken..]);
    if skip > 0 {
      ConcatOne(portions, portion);
      OneMorePortion(portions, portion);
      portions := portions + [portion];
      used := taken + 1;
    }
    start, i := at + 1 + skip, at + 2;
    if start == i {
      assert Concat(portions) + source[start..i] == Concat(portions);
    }
  }

  lemma OneMorePortion(portions: seq<seq<char>>, p: seq<char>)
    requires ArePortions(portions) && IsPortion(p)
    ensures ArePortions(portions + [p])
  {
    hide IsPortion;
  }

  lemma NotLast(source: seq<char>, args: seq<Arg>, whole: seq<char>, done: seq<char>, at: nat, used: nat)
    requires at < |source| && source[at] == PERCENT && Owed(source, args, whole, done, at, used)
    ensures at + 1 < |source| && used <= |args|
  {
  }

  // ---- the consumers

  /** sprintf's callback: as much of a portion as still fits. */
  method Consume(portion: seq<char>, outBuff: array<char>, copied: nat, maxNoNullTerm: int) returns (next: nat)
    requires copied <= outBuff.Length && copied <= Max(0, maxNoNullTerm) && maxNoNullTerm <= outBuff.Length
    modifies outBuff
    ensures next == copied + Max(0, Min(|portion|, maxNoNullTerm - copied))
    ensures outBuff[..next] == old(outBuff[..copied]) + portion[..next - copied]
    ensures outBuff[next..] == old(outBuff[next..])
  {
    var spaceLeft := maxNoNullTerm - copied;
    var overflowAmount := -(spaceLeft - |portion|);
    if overflowAmount < 0 {
      overflowAmount := 0;
    }
    var i := 0;
    next := copied;
    while i < |portion| - overflowAmount
      invariant 0 <= i <= Max(0, |portion| - overflowAmount) && next == copied + i
      invariant forall k :: 0 <= k < i ==> outBuff[copied + k] == portion[k]
      invariant forall k :: 0 <= k < copied || next <= k < outBuff.Length ==> outBuff[k] == old(outBuff[k])
    {
      outBuff[next] := portion[i];
      next, i := next + 1, i + 1;
    }
  }

  /** The first n characters at most. */
  function Take(s: seq<char>, n: int): seq<char> {
    if n <= 0 then [] else if |s| <= n then s else s[..n]
  }

  lemma TakeIs(s: seq<char>, n: nat)
    ensures Take(s, n) == s[..Min(|s|, n)]
  {
    assert s[..|s|] == s;
  }

  lemma TakeMore(a: seq<char>, p: seq<char>, n: int)
    ensures var t := Take(a, n);
            Take(a + p, n) == t + p[..Max(0, Min(|p|, n - |t|))]
  {
  }

  method ConsumeAll(portions: seq<seq<char>>, outBuff: array<char>, maxNoNullTerm: int) returns (copied: nat)
    requires maxNoNullTerm <= outBuff.Length
    modifies outBuff
    ensures copied <= outBuff.Length && copied <= Max(0, maxNoNullTerm)
    ensures outBuff[..copied] == Take(Concat(portions), maxNoNullTerm)
    ensures outBuff[copied..] == old(outBuff[copied..])
  {
    var n := 0;
    copied := 0;
    ConcatEmpty();
    hide Concat;
    assert Take([], maxNoNullTerm) == [];
    hide Take;
    while n < |portions|
      invariant 0 <= n <= |portions| && copied <= outBuff.Length && copied <= Max(0, maxNoNullTerm)
      invariant outBuff[..copied] == Take(Concat(portions[..n]), maxNoNullTerm)
      invariant outBuff[copied..] == old(outBuff[copied..])
    {
      TakeMore(Concat(portions[..n]), portions[n], maxNoNullTerm);
      TakePortion(portions, n);
      ghost var before := copied;
      copied := Consume(portions[n], outBuff, copied, maxNoNullTerm);
      assert outBuff[copied..] == old(outBuff[before..])[copied - before..];
      n := n + 1;
    }
    assert portions[..n] == portions;
  }

  lemma TakePortion(portions: seq<seq<char>>, n: nat)
    requires n < |portions|
    ensures Concat(portions[..n + 1]) == Concat(portions[..n]) + portions[n]
  {
    assert portions[..n + 1] == portions[..n] + [portions[n]];
    ConcatOne(portions[..n], portions[n]);
  }

  /** sprintf: the first characters that fit, and a terminator; nothing at all without room for it. */
  method Sprintf(outBuff: array<char>, maxOutLength: int, source: seq<char>, args: seq<Arg>)
    requires NUL !in source && ArgsMatch(source, args) && !EndsBare(source)
    requires maxOutLength <= outBuff.Length
    modifies outBuff
    ensures maxOutLength <= 0 ==> outBuff[..] == old(outBuff[..])
    ensures maxOutLength >= 1 ==>
              var n := Min(|Formatted(source, args)|, maxOutLength - 1);
              Stored(outBuff[..], 0, Formatted(source, args)[..n]) && outBuff[n + 1..] == old(outBuff[n + 1..])
  {
    if maxOutLength >= 1 {
      TakeIs(Formatted(source, args), maxOutLength - 1);
    }
    var portions := Vsprintf(source, args);
    hide Formatted, ArgsMatch, EndsBare, Concat;
    var copied := ConsumeAll(portions, outBuff, maxOutLength - 1);
    ghost var rest := outBuff[copied..];
    if maxOutLength - copied >= 1 {
      outBuff[copied] := NUL;
      assert outBuff[..][0..copied] == outBuff[..copied];
      assert outBuff[copied + 1..] == rest[1..];
    }
  }
}
