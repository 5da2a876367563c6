/** Number printing and parsing: the text of a number, its value, and the C loops that produce and read it. */
module Numbers {
  import opened CStrings
  import opened Machine

  type Base = b: int | 2 <= b <= 16 witness 10

  predicate IsBase(base: int) {
    2 <= base <= 16
  }

  function DigitChar(d: nat): char
    requires d < 16
  {
    if d < 10 then '0' + d as char else 'A' + (d - 10) as char
  }

  /** The value of a digit in either case. */
  function DigitValue(ch: char): Option<nat> {
    var up := if 'a' <= ch <= 'f' then (ch as int - 32) as char else ch;
    if '0' <= up <= '9' then Some(up as int - '0' as int)
    else if 'A' <= up <= 'F' then Some(10 + up as int - 'A' as int)
    else None
  }

  const DIGITS := "0123456789ABCDEF"
  const LOWER_DIGITS := "0123456789abcdef"

  /** A digit is printed in upper case. */
  lemma DigitChars(d: nat)
    requires d < 16
    ensures DigitChar(d) == DIGITS[d]
  {
  }

  /** It is read in either case, and nothing else is. */
  lemma DigitValues(ch: char, d: nat)
    ensures DigitValue(ch) == Some(d) <==> d < 16 && (ch == DIGITS[d] || ch == LOWER_DIGITS[d])
  {
  }

  predicate IsDigit(ch: char, base: Base) {
    DigitValue(ch).Some? && DigitValue(ch).value < base
  }

  predicate AllDigits(s: seq<char>, base: Base) {
    forall i :: 0 <= i < |s| ==> IsDigit(s[i], base)
  }

  /** The positional value of a string of digits, unbounded. */
  function Value(s: seq<char>, base: Base): nat
    requires AllDigits(s, base)
  {
    if s == [] then 0 else Value(s[..|s| - 1], base) * base + DigitValue(s[|s| - 1]).value
  }

  function DigitPrefix(s: seq<char>, base: Base): (r: seq<char>)
    ensures r <= s && AllDigits(r, base)
    ensures |r| < |s| ==> !IsDigit(s[|r|], base)
  {
    if s == [] || !IsDigit(s[0], base) then [] else [s[0]] + DigitPrefix(s[1..], base)
  }

  // ---- reading

  /** The parser's accumulator after the rest of the string. */
  function ParseFrom(s: seq<char>, base: Base, acc: nat): nat {
    if s == [] || !IsDigit(s[0], base) then acc
    else ParseFrom(s[1..], base, ToUint32(acc * base + DigitValue(s[0]).value))
  }

  function Parsed(s: seq<char>, base: int): nat {
    if IsBase(base) then ParseFrom(s, base, 0) else 0
  }

  lemma {:induction false} ParseAppend(s: seq<char>, c: char, rest: seq<char>, base: Base, acc: nat)
    requires AllDigits(s, base) && IsDigit(c, base)
    ensures ParseFrom(s + [c] + rest, base, acc) ==
            ParseFrom(rest, base, ToUint32(ParseFrom(s, base, acc) * base + DigitValue(c).value))
  {
    if s == [] {
      assert [c] + rest == s + [c] + rest && ([c] + rest)[1..] == rest;
    } else {
      var next := ToUint32(acc * base + DigitValue(s[0]).value);
      assert (s + [c] + rest)[1..] == s[1..] + [c] + rest;
      ParseAppend(s[1..], c, rest, base, next);
    }
  }

  lemma WrapStep(a: nat, base: nat, d: nat)
    ensures ToUint32(ToUint32(a) * base + d) == ToUint32(a * base + d)
  {
    var q := a / TWO_32;
    assert a * base + d == ToUint32(a) * base + d + TWO_32 * (q * base) by {
      assert a == TWO_32 * q + ToUint32(a);
    }
    ModCycle(ToUint32(a) * base + d, q * base);
  }

  lemma {:induction false} ModCycle(x: int, k: nat)
    ensures (x + TWO_32 * k) % TWO_32 == x % TWO_32
  {
    if k > 0 {
      ModCycle(x, k - 1);
      var y := x + TWO_32 * (k - 1);
      assert x + TWO_32 * k == y + TWO_32;
    }
  }

  lemma {:induction false} ParseAllDigits(s: seq<char>, base: Base)
    requires AllDigits(s, base)
    ensures ParseFrom(s, base, 0) == ToUint32(Value(s, base))
  {
    if s != [] {
      var t, c := s[..|s| - 1], s[|s| - 1];
      ParseAllDigits(t, base);
      assert s == t + [c] + [];
      ParseAppend(t, c, [], base, 0);
      WrapStep(Value(t, base), base, DigitValue(c).value);
    }
  }

  lemma {:induction false} ParseStops(s: seq<char>, base: Base, acc: nat)
    ensures ParseFrom(s, base, acc) == ParseFrom(DigitPrefix(s, base), base, acc)
  {
    if s != [] && IsDigit(s[0], base) {
      ParseStops(s[1..], base, ToUint32(acc * base + DigitValue(s[0]).value));
    }
  }

  /** Parsing reads the longest prefix of digits, modulo the word size. */
  lemma ParsedIsValue(s: seq<char>, base: Base)
    ensures Parsed(s, base) == Value(DigitPrefix(s, base), base) % TWO_32
  {
    ParseStops(s, base, 0);
    ParseAllDigits(DigitPrefix(s, base), base);
  }

  // ---- printing

  function Digits(value: nat, base: Base): seq<char> {
    if value == 0 then [] else Digits(value / base, base) + [DigitChar(value % base)]
  }

  function UnsignedText(value: nat, base: int): seq<char> {
    if !IsBase(base) then "?" else if value == 0 then "0" else Digits(value, base)
  }

  /** The low width digits in base 16. */
  function HexText(value: nat, width: nat): (r: seq<char>)
    ensures |r| == width
  {
    if width == 0 then [] else HexText(value / 16, width - 1) + [DigitChar(value % 16)]
  }

  lemma DigitReads(d: nat)
    requires d < 16
    ensures DigitValue(DigitChar(d)) == Some(d)
  {
  }

  lemma ValueAppend(s: seq<char>, c: char, base: Base)
    requires AllDigits(s, base) && IsDigit(c, base)
    ensures AllDigits(s + [c], base)
    ensures Value(s + [c], base) == Value(s, base) * base + DigitValue(c).value
  {
    assert (s + [c])[..|s|] == s;
  }

  lemma DivMod(value: nat, base: Base)
    ensures value == value / base * base + value % base && 0 <= value % base < base
    ensures 0 <= value / base * 2 <= value
    ensures value / base == 0 ==> value % base == value
  {
    var q := value / base;
    assert value == base * q + value % base;
    assert (base - 2) * q >= 0;
  }

  lemma DigitsUnfold(value: nat, base: Base)
    requires value > 0
    ensures Digits(value, base) == Digits(value / base, base) + [DigitChar(value % base)]
    ensures 0 <= value / base < value
  {
    DivMod(value, base);
  }

  lemma {:induction false} DigitsValue(value: nat, base: Base)
    ensures AllDigits(Digits(value, base), base) && Value(Digits(value, base), base) == value
  {
    if value > 0 {
      DivMod(value, base);
      DigitsUnfold(value, base);
      DigitReads(value % base);
      DigitsValue(value / base, base);
      hide *;
      ValueAppend(Digits(value / base, base), DigitChar(value % base), base);
    }
  }

  /** No leading zero is printed. */
  lemma {:induction false} NoLeadingZero(value: nat, base: Base)
    requires value > 0
    ensures Digits(value, base) != [] && Digits(value, base)[0] != '0'
  {
    DivMod(value, base);
    DigitsUnfold(value, base);
    if value / base > 0 {
      NoLeadingZero(value / base, base);
    }
  }

  lemma UnsignedValue(value: nat, base: Base)
    ensures AllDigits(UnsignedText(value, base), base) && UnsignedText(value, base) != []
    ensures Value(UnsignedText(value, base), base) == value
  {
    DigitsValue(value, base);
    if value == 0 {
      assert "0"[..0] == [];
    } else {
      NoLeadingZero(value, base);
    }
  }

  predicate IsUpper(text: seq<char>) {
    forall i :: 0 <= i < |text| ==> text[i] in DIGITS
  }

  /** The text of a number in a base: its digits, in upper case, without a leading zero. */
  predicate IsNumeral(text: seq<char>, base: Base, value: nat) {
    && text != [] && IsUpper(text) && AllDigits(text, base) && Value(text, base) == value
    && (text[0] == '0' ==> |text| == 1)
  }

  lemma {:induction false} DigitsUpper(value: nat, base: Base)
    ensures IsUpper(Digits(value, base))
  {
    if value > 0 {
      DigitsUnfold(value, base);
      DigitsUpper(value / base, base);
      DigitChars(value % base);
      hide Digits, DigitChar;
    }
  }

  lemma UnsignedIsNumeral(value: nat, base: Base)
    ensures IsNumeral(UnsignedText(value, base), base, value)
  {
    UnsignedValue(value, base);
    DigitsUpper(value, base);
    if value > 0 {
      NoLeadingZero(value, base);
    }
  }

  /** Every word, in every base, is read back from its own text. */
  lemma UnsignedRoundTrip(value: nat, base: Base)
    requires value < TWO_32
    ensures Parsed(UnsignedText(value, base), base) == value
  {
    UnsignedValue(value, base);
    ParseAllDigits(UnsignedText(value, base), base);
  }

  function Pow16(w: nat): nat {
    if w == 0 then 1 else 16 * Pow16(w - 1)
  }

  lemma {:induction false} PowPositive(w: nat)
    ensures Pow16(w) > 0
  {
    if w > 0 {
      PowPositive(w - 1);
    }
  }

  lemma SplitMod(v: nat, m: nat)
    requires m > 0
    ensures v % (16 * m) == (v / 16) % m * 16 + v % 16
  {
    var h, l := v / 16, v % 16;
    var q, r := h / m, h % m;
    assert v == 16 * (m * q + r) + l;
    assert 16 * (m * q + r) == 16 * m * q + 16 * r;
    Remainder(v, 16 * m, q, 16 * r + l);
  }

  lemma MulBound(m: int, d: int)
    requires m > 0
    ensures d >= 1 ==> m * d >= m
    ensures d <= -1 ==> m * d <= -m
  {
  }

  lemma Remainder(v: nat, m: nat, q: nat, r: nat)
    requires m > 0 && v == m * q + r && r < m
    ensures v % m == r
  {
    var d := v / m - q;
    assert m * (v / m) == m * q + m * d;
    MulBound(m, d);
  }

  lemma {:induction false} HexValue(value: nat, width: nat)
    ensures AllDigits(HexText(value, width), 16)
    ensures Pow16(width) > 0 && Value(HexText(value, width), 16) == value % Pow16(width)
  {
    PowPositive(width);
    if width > 0 {
      var t := HexText(value / 16, width - 1);
      HexValue(value / 16, width - 1);
      DigitReads(value % 16);
      assert (t + [DigitChar(value % 16)])[..|t|] == t;
      SplitMod(value, Pow16(width - 1));
    }
  }

  /** A hexadecimal field of a width: that many digits in upper case. */
  predicate IsHexField(text: seq<char>, width: nat, value: nat) {
    |text| == width && IsUpper(text) && AllDigits(text, 16) && Value(text, 16) == value
  }

  lemma {:induction false} HexUpper(value: nat, width: nat)
    ensures IsUpper(HexText(value, width))
  {
    if width > 0 {
      HexUpper(value / 16, width - 1);
      DigitChars(value % 16);
      hide DigitChar;
    }
  }

  lemma Pow16Words()
    ensures Pow16(8) == TWO_32 && Pow16(16) == TWO_32 * TWO_32
  {
    assert Pow16(4) == 0x1_0000;
    assert Pow16(12) == 0x1_0000 * TWO_32;
  }

  /** A field with room for the value holds it. */
  lemma HexIsField(value: nat, width: nat)
    requires value < Pow16(width)
    ensures IsHexField(HexText(value, width), width, value)
  {
    HexUpper(value, width);
    HexValue(value, width);
    hide Pow16, HexText, IsUpper, AllDigits, Value;
    Remainder(value, Pow16(width), 0, value);
  }

  /** A hexadecimal field of any width reads back as the value modulo sixteen to that width. */
  lemma HexRoundTrip(value: nat, width: nat)
    requires value < TWO_32
    ensures Pow16(width) > 0 && Parsed(HexText(value, width), 16) == value % Pow16(width)
  {
    HexValue(value, width);
    hide Pow16, HexText, Value, ParseFrom, AllDigits;
    ParseAllDigits(HexText(value, width), 16);
    ModAtMost(value, Pow16(width));
  }

  lemma ModAtMost(v: nat, m: nat)
    requires m > 0
    ensures v % m <= v
  {
    assert v < m ==> v % m == v;
  }

  // ---- signed numbers

  /** Only base 10 prints a sign; the negation wraps at the smallest value. */
  function SignedText(value: int, base: int): seq<char> {
    if value < 0 && base == 10 then "-" + UnsignedText(ToUint32(ToInt32(-value)), base)
    else UnsignedText(ToUint32(value), base)
  }

  function ParsedSigned(s: seq<char>, base: int): int {
    if !IsBase(base) then 0
    else if s != [] && s[0] == '-' then ToInt32(-(Parsed(s[1..], base) as int))
    else if s != [] && s[0] == '+' then ToInt32(Parsed(s[1..], base))
    else ToInt32(Parsed(s, base))
  }

  /** Every int, in every base, is read back from its own text, the smallest one included. */
  lemma SignedRoundTrip(value: int, base: Base)
    requires -TWO_31 <= value < TWO_31
    ensures ParsedSigned(SignedText(value, base), base) == value
  {
    if value < 0 && base == 10 {
      var u := ToUint32(ToInt32(-value));
      assert u == -value;
      UnsignedRoundTrip(u, base);
      assert ("-" + UnsignedText(u, base))[1..] == UnsignedText(u, base);
    } else {
      var u := ToUint32(value);
      UnsignedRoundTrip(u, base);
      UnsignedValue(u, base);
      assert IsDigit(UnsignedText(u, base)[0], base);
    }
  }

  /** In base 10 a minus and the absolute value; in every other base the 32 bits as they are. */
  lemma SignedIsNumeral(value: int, base: Base)
    requires -TWO_31 <= value < TWO_31
    ensures value < 0 && base == 10 ==>
              SignedText(value, base)[..1] == "-" && IsNumeral(SignedText(value, base)[1..], 10, -value)
    ensures value < 0 && base != 10 ==> IsNumeral(SignedText(value, base), base, TWO_32 + value)
    ensures value >= 0 ==> IsNumeral(SignedText(value, base), base, value)
  {
    hide IsNumeral, UnsignedText;
    if value < 0 && base == 10 {
      assert ToUint32(ToInt32(-value)) == -value;
      UnsignedIsNumeral(-value, 10);
      var text := UnsignedText(-value, 10);
      assert ("-" + text)[1..] == text;
    } else {
      UnsignedIsNumeral(ToUint32(value), base);
    }
  }

  lemma NegateMod(v: int)
    requires v >= 0
    ensures ToInt32(-(v % TWO_32)) == ToInt32(-v) && ToInt32(v % TWO_32) == ToInt32(v)
  {
    var q := v / TWO_32;
    assert v == TWO_32 * q + v % TWO_32;
    ModCycle(-v, q);
    assert -v + TWO_32 * q == -(v % TWO_32);
  }

  /** A sign in front of digits, wrapped to int. */
  lemma SignsRead(s: seq<char>, base: Base)
    requires AllDigits(s, base)
    ensures ParsedSigned("-" + s, base) == ToInt32(-(Value(s, base) as int))
    ensures ParsedSigned("+" + s, base) == ParsedSigned(s, base) == ToInt32(Value(s, base))
  {
    assert ("-" + s)[1..] == s && ("+" + s)[1..] == s;
    ParseAllDigits(s, base);
    hide Value, ParseFrom, ToInt32;
    NegateMod(Value(s, base));
    assert s != [] ==> IsDigit(s[0], base);
  }

  // ---- the printing loops

  function Reversed(s: seq<char>): (r: seq<char>)
    ensures |r| == |s|
  {
    if s == [] then [] else Reversed(s[1..]) + [s[0]]
  }

  lemma {:induction false} ReversedLast(s: seq<char>, c: char)
    ensures Reversed(s + [c]) == [c] + Reversed(s)
  {
    if s == [] {
      assert [c][1..] == [] && Reversed([]) == [];
    } else {
      assert (s + [c])[1..] == s[1..] + [c];
      ReversedLast(s[1..], c);
    }
  }

  function Pow2(n: nat): nat {
    if n == 0 then 1 else 2 * Pow2(n - 1)
  }

  lemma Pow2Word()
    ensures Pow2(32) == TWO_32
  {
    assert Pow2(8) == 256;
    assert Pow2(16) == 65536;
    assert Pow2(24) == 16777216;
  }

  lemma HalfFits(value: nat, base: Base, n: nat)
    requires 0 < value < Pow2(n)
    ensures n > 0 && value / base < Pow2(n - 1)
  {
    DivMod(value, base);
  }

  lemma DigitsStep(value: nat, base: Base, temp: seq<char>)
    requires value > 0
    ensures Digits(value / base, base) + Reversed(temp + [DigitChar(value % base)]) ==
            Digits(value, base) + Reversed(temp)
  {
    ReversedLast(temp, DigitChar(value % base));
  }

  lemma NoDigits(base: Base, word: nat)
    ensures Digits(word, base) + Reversed([]) == Digits(word, base)
    ensures forall t: seq<char> :: Digits(0, base) + t == t
  {
  }

  /** The digits come out lowest first; a buffer of 32 holds them in every base. */
  method TakeDigits(word: nat, base: Base, temp: array<char>) returns (i: nat)
    requires word < TWO_32 && temp.Length == 32
    modifies temp
    ensures i <= 32 && Reversed(temp[..i]) == Digits(word, base)
  {
    var value: nat := word;
    i := 0;
    Pow2Word();
    NoDigits(base, word);
    assert temp[..0] == [];
    hide Pow2, Digits, Reversed;
    while value != 0
      invariant i <= 32 && value < Pow2(32 - i)
      invariant Digits(value, base) + Reversed(temp[..i]) == Digits(word, base)
      decreases value
    {
      HalfFits(value, base, 32 - i);
      DivMod(value, base);
      var reminder := value % base;
      DigitsStep(value, base, temp[..i]);
      ghost var low := temp[..i];
      temp[i] := if reminder < 10 then '0' + reminder as char else 'A' + (reminder - 10) as char;
      assert temp[..i + 1] == low + [DigitChar(reminder)];
      i := i + 1;
      value := value / base;
    }
  }

  /** text stands at a position of the buffer, terminated. */
  predicate Stored(buffer: seq<char>, at: nat, text: seq<char>) {
    at + |text| < |buffer| && buffer[at..at + |text|] == text && buffer[at + |text|] == NUL
  }

  lemma {:induction false} ReversedAt(s: seq<char>, k: nat)
    requires k < |s|
    ensures Reversed(s)[k] == s[|s| - 1 - k]
  {
    if k < |s| - 1 {
      ReversedAt(s[1..], k);
    }
  }

  method CopyReversed(temp: array<char>, count: nat, outBuffer: array<char>, at: nat)
    requires temp != outBuffer && count <= temp.Length && at + count < outBuffer.Length
    modifies outBuffer
    ensures Stored(outBuffer[..], at, Reversed(temp[..count]))
    ensures outBuffer[..at] == old(outBuffer[..at])
  {
    ghost var rev := Reversed(temp[..count]);
    var i := count;
    while i > 0
      invariant i <= count
      invariant forall k :: 0 <= k < count - i ==> outBuffer[at + k] == rev[k]
      invariant forall k :: 0 <= k < at ==> outBuffer[k] == old(outBuffer[k])
    {
      i := i - 1;
      ReversedAt(temp[..count], count - 1 - i);
      outBuffer[at + (count - 1 - i)] := temp[i];
    }
    outBuffer[at + count] := NUL;
  }

  method UintToStr(value: nat, outBuffer: array<char>, at: nat, base: int)
    requires value < TWO_32 && at + |UnsignedText(value, base)| < outBuffer.Length
    modifies outBuffer
    ensures Stored(outBuffer[..], at, UnsignedText(value, base))
    ensures base < 2 || base > 16 ==> Stored(outBuffer[..], at, "?")
    ensures outBuffer[..at] == old(outBuffer[..at])
  {
    if base < 2 || base > 16 {
      outBuffer[at] := '?';
      outBuffer[at + 1] := NUL;
      return;
    }
    if value == 0 {
      outBuffer[at] := '0';
      outBuffer[at + 1] := NUL;
      return;
    }
    var temp := new char[32];
    var i := TakeDigits(value, base, temp);
    CopyReversed(temp, i, outBuffer, at);
  }

  lemma SignStored(buffer: seq<char>, at: nat, text: seq<char>)
    requires Stored(buffer, at + 1, text) && buffer[at] == '-'
    ensures Stored(buffer, at, "-" + text)
  {
    assert buffer[at..at + 1 + |text|] == [buffer[at]] + buffer[at + 1..at + 1 + |text|];
  }

  method IntToStr(value: int, outBuffer: array<char>, at: nat, base: int)
    requires -TWO_31 <= value < TWO_31 && at + |SignedText(value, base)| < outBuffer.Length
    modifies outBuffer
    ensures Stored(outBuffer[..], at, SignedText(value, base))
    ensures outBuffer[..at] == old(outBuffer[..at])
  {
    if value < 0 && base == 10 {
      outBuffer[at] := '-';
      ghost var before := outBuffer[..at + 1];
      hide UnsignedText;
      UintToStr(ToUint32(ToInt32(-value)), outBuffer, at + 1, base);
      assert outBuffer[at] == before[at] && outBuffer[..at] == before[..at];
      SignStored(outBuffer[..], at, UnsignedText(ToUint32(ToInt32(-value)), base));
    } else {
      UintToStr(ToUint32(value), outBuffer, at, base);
    }
  }

  /** uint_to_hex, and with a 64-bit value uint64_to_hex. */
  method UintToHex(word: nat, outBuffer: array<char>, at: nat, width: nat)
    requires at + width < outBuffer.Length
    modifies outBuffer
    ensures Stored(outBuffer[..], at, HexText(word, width))
    ensures outBuffer[..at] == old(outBuffer[..at])
  {
    var hexChars := "0123456789ABCDEF";
    var value: nat, i := word, width;
    while i > 0
      invariant 0 <= i <= width
      invariant HexText(value, i) + outBuffer[at + i..at + width] == HexText(word, width)
      invariant outBuffer[..at] == old(outBuffer[..at])
    {
      i := i - 1;
      ghost var done := outBuffer[at + i + 1..at + width];
      assert hexChars[value % 16] == DigitChar(value % 16);
      outBuffer[at + i] := hexChars[value % 16];
      assert outBuffer[at + i..at + width] == [DigitChar(value % 16)] + done;
      value := value / 16;
    }
    outBuffer[at + width] := NUL;
  }

  // ---- the parsing loop

  method StrToUint(source: seq<char>, base: int) returns (number: nat)
    ensures number == Parsed(source, base)
    ensures base < 2 || base > 16 ==> number == 0
  {
    if base < 2 || base > 16 {
      return 0;
    }
    number := 0;
    var i := 0;
    while At(source, i) != NUL
      invariant i <= |source|
      invariant ParseFrom(source[i..], base, number) == Parsed(source, base)
      decreases |source| - i
    {
      var ch := source[i];
      if 'a' <= ch <= 'f' {
        ch := (ch as int - 32) as char;
      }
      var digit: nat;
      if '0' <= ch <= '9' {
        digit := ch as int - '0' as int;
      } else if 'A' <= ch <= 'F' {
        digit := 10 + (ch as int - 'A' as int);
      } else {
        return;
      }
      if digit >= base {
        return;
      }
      WrapStep(number * base, 1, digit);
      number := ToUint32(ToUint32(number * base) + digit);
      assert source[i..][1..] == source[i + 1..];
      i := i + 1;
    }
  }

  method StrToInt(source: seq<char>, base: int) returns (number: int)
    ensures number == ParsedSigned(source, base)
    ensures base < 2 || base > 16 ==> number == 0
  {
    if base < 2 || base > 16 {
      return 0;
    }
    var mult: int, start := 1, 0;
    if At(source, 0) == '-' {
      mult := -1;
      start := 1;
    } else if At(source, 0) == '+' {
      start := 1;
    }
    var magnitude := StrToUint(source[start..], base);
    number := ToInt32(ToUint32(magnitude * mult));
    assert source[0..] == source;
  }
}
