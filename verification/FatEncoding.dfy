/** Writing a directory the way the FAT specification lays it out, and reading it back with the entry parser. */
module FatEncoding {
  import opened Bytes
  import opened Buffers
  import opened CStrings
  import opened FatNames
  import opened Machine

  const MAX_FILENAME_SIZE := 256
  const MAX_SLOTS := 19

  const FREE_ENTRY := 0xE5
  const FIRST_E5 := 0x05
  const LONG_NAME := 0x0F

  /**
    What a directory holds: a long name in front of its short entry, the 8.3 name of a file or directory, a volume
    label, and entries to be skipped.
   */
  datatype Item =
    | Long(name: seq<char>, short: seq<Byte>, attributes: Byte, tail: seq<Byte>)
    | Short(base: seq<char>, ext: seq<char>, attributes: Byte, tail: seq<Byte>)
    | Label(name: seq<char>, attributes: Byte, tail: seq<Byte>)
    | Skipped(entry: Entry)

  /** Characters of one UTF-16 unit each. */
  predicate IsWide(s: seq<char>) {
    forall i :: 0 <= i < |s| ==> 0 < s[i] as int < 0x10000
  }

  /** Characters of one byte each. */
  predicate IsText(s: seq<char>) {
    forall i :: 0 <= i < |s| ==> 0 < s[i] as int < 256
  }

  /** Text that survives being padded with spaces. */
  predicate IsField(s: seq<char>, max: nat) {
    |s| <= max && IsText(s) && (s != [] ==> s[|s| - 1] != ' ')
  }

  /** A short name or label, which never starts with the byte that stands for 0xE5. */
  predicate IsName(s: seq<char>, max: nat) {
    IsField(s, max) && (s != [] ==> s[0] as int != FIRST_E5)
  }

  predicate Starts(bytes: seq<Byte>) {
    bytes != [] && bytes[0] != 0 && bytes[0] != FREE_ENTRY
  }

  predicate IsDirectory(attributes: Byte) {
    attributes / 16 % 2 != 0
  }

  /** Bit 6 or 7, device or unused, is set. */
  predicate IsReserved(attributes: Byte) {
    attributes >= 0x40
  }

  predicate IsLabel(attributes: Byte) {
    attributes / 8 % 2 != 0
  }

  predicate IsItem(item: Item) {
    match item
    case Long(name, short, attributes, tail) =>
      && IsWide(name) && 0 < |name| <= SLOT * MAX_SLOTS
      && |short| == 11 && Starts(short) && |tail| == 20
      && !IsReserved(attributes) && attributes != LONG_NAME
    case Short(base, ext, attributes, tail) =>
      && IsName(base, 8) && IsField(ext, 3) && |tail| == 20
      && !IsReserved(attributes) && !IsLabel(attributes)
    case Label(name, attributes, tail) =>
      && IsName(name, 11) && |tail| == 20
      && !IsReserved(attributes) && IsLabel(attributes) && attributes != LONG_NAME
    case Skipped(e) =>
      e[0] != 0 && (e[0] == FREE_ENTRY || (Attributes(e) != LONG_NAME && IsReserved(Attributes(e))))
  }

  /** A short name as it is stored: a leading 0xE5, which would erase the entry, becomes 0x05. */
  function Stored(name: seq<char>): (r: seq<char>)
    requires IsText(name)
    ensures IsText(r) && |r| == |name|
  {
    if name != [] && name[0] as int == FREE_ENTRY then [FIRST_E5 as char] + name[1..] else name
  }

  lemma StoredField(name: seq<char>, max: nat)
    requires IsName(name, max)
    ensures IsField(Stored(name), max)
    ensures max > 0 ==> Starts(Padded(Stored(name), max))
    ensures Stored(name) == name <==> Kept(name)
  {
    assert name != [] ==> Stored(name)[0] == if name[0] as int == FREE_ENTRY then FIRST_E5 as char else name[0];
  }

  /** The name does not start with 0xE5. */
  predicate Kept(name: seq<char>) {
    name != [] ==> name[0] as int != FREE_ENTRY
  }

  /** Padded with spaces. */
  function Padded(s: seq<char>, n: nat): (r: seq<Byte>)
    requires IsText(s) && |s| <= n
    ensures |r| == n
  {
    seq(n, i requires 0 <= i < n => if i < |s| then s[i] as int else 32)
  }

  // ---- long names

  function Slots(name: seq<char>): nat {
    (|name| + 12) / 13
  }

  /** The UTF-16 unit at position i of the slots: the name, a terminator, then 0xFFFF. */
  function Unit(name: seq<char>, i: nat): (r: int)
    requires IsWide(name)
    ensures 0 <= r < 0x10000
  {
    if i < |name| then name[i] as int else if i == |name| then 0 else 0xFFFF
  }

  function Units(name: seq<char>, k: nat): (r: seq<int>)
    requires IsWide(name)
    ensures |r| == SLOT && forall i :: 0 <= i < SLOT ==> r[i] == Unit(name, SLOT * k + i)
  {
    seq(SLOT, i requires 0 <= i < SLOT => Unit(name, SLOT * k + i))
  }

  /** The low or the high byte of a 16-bit unit. */
  function Half(unit: int, high: nat): Byte
    requires 0 <= unit < 0x10000
  {
    if high == 0 then unit % 256 else unit / 256
  }

  /** Byte at of a slot: units 0-4 lie at 1, units 5-10 at 14 and units 11-12 at 28. */
  function LfnByte(units: seq<int>, first: Byte, sum: Byte, at: nat): Byte
    requires |units| == SLOT && (forall i :: 0 <= i < SLOT ==> 0 <= units[i] < 0x10000) && at < 32
  {
    if at == 0 then first
    else if at < 11 then Half(units[(at - 1) / 2], (at - 1) % 2)
    else if at == 11 then LONG_NAME
    else if at == 13 then sum
    else if 14 <= at < 26 then Half(units[5 + (at - 14) / 2], (at - 14) % 2)
    else if 28 <= at then Half(units[11 + (at - 28) / 2], (at - 28) % 2)
    else 0
  }

  function FirstByte(name: seq<char>, k: nat): Byte
    requires k <= MAX_SLOTS
  {
    if k == Slots(name) then k + 0x40 else k
  }

  /** The sum over a short name that every slot carries, byte by byte: rotate the sum so far right, add the byte. */
  function NameSum(bytes: seq<Byte>): bv8 {
    if bytes == [] then 0
    else Plus(Rotated(NameSum(bytes[..|bytes| - 1])), bytes[|bytes| - 1] as bv8)
  }

  lemma RotatedSum(sum: bv8, b: Byte)
    ensures Number(Plus(Rotated(sum), b as bv8)) == ChecksumStep(Number(sum), b)
  {
    RotatedNumber(sum);
    NumberOf(b);
    PlusNumber(Rotated(sum), b as bv8);
    hide Number, Plus, Rotated;
  }

  lemma {:induction false} SumAppend(c: Byte, bytes: seq<Byte>, b: Byte)
    ensures ChecksumFrom(c, bytes + [b]) == ChecksumStep(ChecksumFrom(c, bytes), b)
    decreases |bytes|
  {
    hide ChecksumStep;
    if bytes == [] {
      assert (bytes + [b])[1..] == [];
    } else {
      assert (bytes + [b])[1..] == bytes[1..] + [b];
      SumAppend(ChecksumStep(c, bytes[0]), bytes[1..], b);
    }
  }

  /** The parser's sum is that one. */
  lemma {:induction false} ChecksumIsNameSum(bytes: seq<Byte>)
    ensures Checksum(bytes) == Number(NameSum(bytes))
  {
    hide RotateRight, Plus, Rotated;
    if bytes != [] {
      var rest, b := bytes[..|bytes| - 1], bytes[|bytes| - 1];
      ChecksumIsNameSum(rest);
      assert bytes == rest + [b];
      SumAppend(0, rest, b);
      RotatedSum(NameSum(rest), b);
      hide ChecksumFrom, ChecksumStep, Number;
    }
  }

  lemma SumNext(s: seq<Byte>, k: nat, c: Byte, next: Byte)
    requires k < |s| && next == (c % 2 * 128 + c / 2 + s[k]) % 256
    ensures ChecksumFrom(c, s[k..]) == ChecksumFrom(next, s[k + 1..])
  {
    assert s[k..][1..] == s[k + 1..];
  }

  lemma SumWhole(s: seq<Byte>, n: Byte)
    ensures ChecksumFrom(0, s[0..]) == Checksum(s) && ChecksumFrom(n, s[|s|..]) == n
  {
    assert s[0..] == s && s[|s|..] == [];
  }

  /** The sum of the eleven bytes of KERNEL.BIN. */
  lemma KernelSum(s: seq<Byte>)
    requires |s| == 11 && s[0] == 0x4B && s[1] == 0x45 && s[2] == 0x52 && s[3] == 0x4E && s[4] == 0x45 && s[5] == 0x4C
    requires s[6] == s[7] == 0x20 && s[8] == 0x42 && s[9] == 0x49 && s[10] == 0x4E
    ensures Checksum(s) == 0xDA
  {
    hide *;
    SumWhole(s, 0xDA);
    SumNext(s, 0, 0, 0x4b);
    SumNext(s, 1, 0x4b, 0xea);
    SumNext(s, 2, 0xea, 0xc7);
    SumNext(s, 3, 0xc7, 0x31);
    SumNext(s, 4, 0x31, 0xdd);
    SumNext(s, 5, 0xdd, 0x3a);
    SumNext(s, 6, 0x3a, 0x3d);
    SumNext(s, 7, 0x3d, 0xbe);
    SumNext(s, 8, 0xbe, 0xa1);
    SumNext(s, 9, 0xa1, 0x19);
    SumNext(s, 10, 0x19, 0xda);
  }

  /** Slot k of a long name, counted from 1. */
  function LfnEntry(name: seq<char>, sum: Byte, k: nat): (e: Entry)
    requires IsWide(name) && 1 <= k <= MAX_SLOTS
    ensures forall at :: 0 <= at < 32 ==> e[at] == LfnByte(Units(name, k - 1), FirstByte(name, k), sum, at)
  {
    var units, first := Units(name, k - 1), FirstByte(name, k);
    seq(32, at requires 0 <= at < 32 => LfnByte(units, first, sum, at))
  }

  /** Slots k down to 1. */
  function LfnEntries(name: seq<char>, sum: Byte, k: nat): seq<Entry>
    requires IsWide(name) && k <= MAX_SLOTS
  {
    if k == 0 then [] else [LfnEntry(name, sum, k)] + LfnEntries(name, sum, k - 1)
  }

  /** What the slots leave in the name buffer. */
  function SlotText(name: seq<char>): (r: seq<char>)
    requires IsWide(name)
    ensures |r| == SLOT * Slots(name)
  {
    seq(SLOT * Slots(name), i requires 0 <= i < SLOT * Slots(name) => (Unit(name, i) % 256) as char)
  }

  lemma LfnEntryFields(name: seq<char>, sum: Byte, k: nat)
    requires IsWide(name) && 1 <= k <= MAX_SLOTS
    ensures var e := LfnEntry(name, sum, k);
            && e[0] != 0 && e[0] != FREE_ENTRY && Attributes(e) == LONG_NAME && e[13] == sum && SeqNum(e) == k
  {
    hide Units;
  }

  lemma EntryChar(name: seq<char>, sum: Byte, k: nat, i: nat)
    requires IsWide(name) && 1 <= k <= Slots(name) <= MAX_SLOTS && i < SLOT
    ensures LfnEntry(name, sum, k)[CharAt(i)] == Unit(name, SLOT * (k - 1) + i) % 256
  {
  }

  lemma SlotChar(name: seq<char>, k: nat, i: nat)
    requires IsWide(name) && 1 <= k <= Slots(name) && i < SLOT
    ensures SlotText(name)[SLOT * (k - 1)..SLOT * k][i] == (Unit(name, SLOT * (k - 1) + i) % 256) as char
  {
    hide Unit, Slots;
  }

  lemma LfnEntryChars(name: seq<char>, sum: Byte, k: nat)
    requires IsWide(name) && 1 <= k <= Slots(name) <= MAX_SLOTS
    ensures LfnChars(LfnEntry(name, sum, k)) == SlotText(name)[SLOT * (k - 1)..SLOT * k]
  {
    var x, y := LfnChars(LfnEntry(name, sum, k)), SlotText(name)[SLOT * (k - 1)..SLOT * k];
    forall i | 0 <= i < SLOT ensures x[i] == y[i] {
      EntryChar(name, sum, k, i);
      SlotChar(name, k, i);
      hide LfnEntry, SlotText, Unit, CharAt, Slots;
    }
    hide *;
  }

  lemma LfnStep(name: seq<char>, sum: Byte, k: nat, p: Parser, buf: seq<char>)
    requires IsWide(name) && 1 <= k <= Slots(name) <= MAX_SLOTS && |buf| >= MAX_FILENAME_SIZE
    ensures Fits(LfnEntry(name, sum, k), |buf|) && LfnEntry(name, sum, k)[0] != 0
    ensures Handled(LfnEntry(name, sum, k), p, buf) ==
            (Parser(true, sum), Written(buf, SlotText(name)[SLOT * (k - 1)..SLOT * k], SLOT * (k - 1)), false)
  {
    LfnEntryFields(name, sum, k);
    LfnEntryChars(name, sum, k);
    hide LfnEntry, LfnChars, SlotText;
  }

  lemma WrittenTwice(buf: seq<char>, text: seq<char>, a: nat, b: nat)
    requires a <= b <= |text| && b <= |buf|
    ensures Written(Written(buf, text[a..b], a), text[..a], 0) == Written(buf, text[..b], 0)
  {
  }

  lemma WrittenNothing(buf: seq<char>, text: seq<char>)
    ensures Written(buf, text[..0], 0) == buf
  {
  }

  lemma NamesHead(e: Entry, rest: seq<Entry>, p: Parser, buf: seq<char>)
    requires e[0] != 0 && Fits(e, |buf|) && AllFit(rest, |buf|)
    ensures AllFit([e] + rest, |buf|)
    ensures var h := Handled(e, p, buf);
            Names([e] + rest, p, buf) == (if h.2 then [CString(h.1)] else []) + Names(rest, h.0, h.1)
  {
    hide Fits, Handled, CString;
    assert ([e] + rest)[1..] == rest;
  }

  /** Reading the slots fills the start of the buffer and changes nothing behind it. */
  lemma {:induction false} LfnRun(name: seq<char>, sum: Byte, k: nat, rest: seq<Entry>, p: Parser, buf: seq<char>)
    requires IsWide(name) && k <= Slots(name) <= MAX_SLOTS && |buf| >= MAX_FILENAME_SIZE
    requires AllFit(rest, |buf|)
    ensures AllFit(LfnEntries(name, sum, k) + rest, |buf|)
    ensures Names(LfnEntries(name, sum, k) + rest, p, buf) ==
            Names(rest, if k == 0 then p else Parser(true, sum), Written(buf, SlotText(name)[..SLOT * k], 0))
    decreases k
  {
    hide Names, AllFit, Handled, Fits, Written, CString, LfnEntry, SlotText, IsWide;
    if k == 0 {
      assert LfnEntries(name, sum, 0) + rest == rest;
      WrittenNothing(buf, SlotText(name));
    } else {
      LfnStep(name, sum, k, p, buf);
      LfnRun(name, sum, k - 1, rest, Parser(true, sum),
             Written(buf, SlotText(name)[SLOT * (k - 1)..SLOT * k], SLOT * (k - 1)));
      LfnUnfold(name, sum, k, rest);
      hide *;
      WrittenTwice(buf, SlotText(name), SLOT * (k - 1), SLOT * k);
      NamesHead(LfnEntry(name, sum, k), LfnEntries(name, sum, k - 1) + rest, p, buf);
    }
  }

  lemma LfnUnfold(name: seq<char>, sum: Byte, k: nat, rest: seq<Entry>)
    requires IsWide(name) && 1 <= k <= MAX_SLOTS
    ensures LfnEntries(name, sum, k) + rest == [LfnEntry(name, sum, k)] + (LfnEntries(name, sum, k - 1) + rest)
  {
    hide LfnEntry;
  }

  lemma {:induction false} CStringAppend(a: seq<char>, b: seq<char>)
    requires NUL !in a
    ensures CString(a + b) == a + CString(b)
  {
    if a == [] {
      assert a + b == b;
    } else {
      assert (a + b)[1..] == a[1..] + b && a[0] in a;
      CStringAppend(a[1..], b);
    }
  }

  /** The low bytes of the characters. */
  function Narrowed(name: seq<char>): (r: seq<char>)
    ensures |r| == |name|
  {
    seq(|name|, i requires 0 <= i < |name| => (name[i] as int % 256) as char)
  }

  /** What is read for a long name: its low bytes, and behind a name that fills its slots what the buffer held. */
  lemma LongNameRead(name: seq<char>, buf: seq<char>)
    requires IsWide(name) && name != [] && Slots(name) <= MAX_SLOTS && |buf| >= MAX_FILENAME_SIZE
    ensures CString(Written(buf, SlotText(name), 0)) ==
            CString(Narrowed(name) + if |name| % SLOT == 0 then buf[|name|..] else [])
  {
    var text, low := SlotText(name), Narrowed(name);
    var after := Written(buf, text, 0);
    assert forall i :: 0 <= i < |name| ==> text[i] == low[i];
    hide Narrowed, CString;
    if |name| % SLOT == 0 {
      assert text == low;
      assert after == low + buf[|name|..];
    } else {
      assert |text| > |name| && after[|name|] == text[|name|] == NUL;
      hide SlotText, Unit, IsWide;
      assert after[..|name|] == low;
      CStringUpTo(after, low, |name|);
      assert low + [] == low;
    }
  }

  /** The name in the buffer: terminated by the slots, or, when it fills them, by whatever the buffer held. */
  lemma LongNameText(name: seq<char>, buf: seq<char>)
    requires IsText(name) && name != [] && Slots(name) <= MAX_SLOTS && |buf| >= MAX_FILENAME_SIZE
    ensures CString(Written(buf, SlotText(name), 0)) ==
            if |name| % SLOT != 0 then name else name + CString(buf[|name|..])
  {
    LongNameRead(name, buf);
    NarrowText(name);
    hide Narrowed, CString, SlotText, Written;
    if |name| % SLOT == 0 {
      CStringAppend(name, buf[|name|..]);
    } else {
      assert name + [] == name;
    }
  }

  lemma NarrowText(name: seq<char>)
    requires IsText(name)
    ensures Narrowed(name) == name && NUL !in name && CString(name) == name
  {
    CStringWhole(name);
  }

  lemma CStringUpTo(s: seq<char>, t: seq<char>, n: nat)
    requires n == |t| < |s| && s[n] == NUL && s[..n] == t
    ensures CString(s) == CString(t)
  {
    var d := CString(t);
    assert s[..|d|] == t[..|d|] == d;
    CStringIs(s, |d|);
  }

  // ---- short names

  function Joined(short: seq<Byte>, attributes: Byte, tail: seq<Byte>): Entry
    requires |short| == 11 && |tail| == 20
  {
    short + [attributes] + tail
  }

  lemma {:induction false} TrimEndIs(buf: seq<char>, at: nat, length: nat, n: nat)
    requires n <= length && at + length <= |buf|
    requires forall i :: at + n <= i < at + length ==> buf[i] == ' '
    requires n > 0 ==> buf[at + n - 1] != ' '
    ensures TrimEnd(buf, at, length) == at + n
  {
    if n < length {
      TrimEndIs(buf, at, length - 1, n);
    }
  }

  /** A bounded copy of a field without NUL copies all of it. */
  lemma CopiedField(buf: seq<char>, source: seq<char>, at: nat, n: nat)
    requires n < |source| && NUL !in source[..n] && at + n + 1 <= |buf|
    ensures CopyLength(source, n + 1) == n
    ensures Copied(buf, source, at, n + 1) == buf[..at] + source[..n] + [NUL] + buf[at + n + 1..]
  {
    CStringAtLeast(source, n);
    assert CString(source)[..n] == source[..n];
    hide CString;
  }

  lemma FieldBytes(s: seq<char>, n: nat)
    requires IsText(s) && |s| <= n
    ensures NUL !in Chars(Padded(s, n)) && s <= Chars(Padded(s, n))
    ensures forall i :: |s| <= i < n ==> Chars(Padded(s, n))[i] == ' '
  {
  }

  lemma UndottedText(name: seq<char>, attributes: Byte, tail: seq<Byte>, buf: seq<char>)
    requires IsField(name, 11) && |tail| == 20 && |buf| >= MAX_FILENAME_SIZE
    ensures CString(UndottedShort(Joined(Padded(name, 11), attributes, tail), buf)) == name
  {
    var e := Joined(Padded(name, 11), attributes, tail);
    var t := Chars(Padded(name, 11));
    FieldBytes(name, 11);
    assert NUL !in name;
    assert Chars(e)[..8] == t[..8] && Chars(e[8..])[..3] == t[8..];
    CopiedField(buf, Chars(e), 0, 8);
    var b1 := Copied(buf, Chars(e), 0, 9);
    CopiedField(b1, Chars(e[8..]), 8, 3);
    var b2 := Copied(b1, Chars(e[8..]), 8, 4);
    hide Copied, CString, Chars, Padded;
    assert b1[..8] == t[..8];
    assert b2 == b1[..8] + t[8..] + [NUL] + b1[12..];
    assert b2[..11] == t;
    assert forall i :: 0 <= i < 11 ==> b2[i] == t[i];
    TrimEndIs(b2, 0, 11, |name|);
    var b3 := Trimmed(b2, 0, 11);
    assert b3[..|name|] == name;
    CStringIs(b3, |name|);
  }

  /** t is the field s padded with spaces. */
  predicate PaddedWith(t: seq<char>, s: seq<char>) {
    s <= t && NUL !in t && (forall i :: |s| <= i < |t| ==> t[i] == ' ') && (s != [] ==> s[|s| - 1] != ' ')
  }

  /** The base name, trimmed and dotted. */
  lemma BasePart(buf: seq<char>, b1: seq<char>, s: seq<char>, base: seq<char>)
    requires |s| == 8 && PaddedWith(s, base) && |buf| >= 16
    requires b1 == buf[..0] + s + [NUL] + buf[9..]
    ensures TrimEnd(b1, 0, 8) == |base|
    ensures Copied(Trimmed(b1, 0, 8), ".", |base|, 2)[..|base| + 1] == base + "."
  {
    var n := |base|;
    assert forall i :: 0 <= i < 8 ==> b1[i] == s[i];
    TrimEndIs(b1, 0, 8, n);
    hide TrimEnd, Copied;
    DotCopied(Trimmed(b1, 0, 8), n);
    assert Trimmed(b1, 0, 8)[..n] == base;
  }

  /** The extension behind the dot. */
  lemma ExtPart(b2: seq<char>, b3: seq<char>, at: nat, t: seq<char>, ext: seq<char>)
    requires |t| == 3 && PaddedWith(t, ext) && at + 4 <= |b2| && NUL !in b2[..at]
    requires b3 == b2[..at] + t + [NUL] + b2[at + 4..]
    ensures CString(Trimmed(b3, at, 3)) == b2[..at] + ext
  {
    assert forall i :: 0 <= i < 3 ==> b3[at + i] == t[i];
    TrimEndIs(b3, at, 3, |ext|);
    hide TrimEnd, CString;
    var b4 := Trimmed(b3, at, 3);
    var k := at + |ext|;
    assert b4[..k] == b2[..at] + ext;
    CStringIs(b4, k);
  }

  lemma DottedText(base: seq<char>, ext: seq<char>, attributes: Byte, tail: seq<Byte>, buf: seq<char>)
    requires IsField(base, 8) && IsField(ext, 3) && |tail| == 20 && |buf| >= MAX_FILENAME_SIZE
    ensures CString(DottedShort(Joined(Padded(base, 8) + Padded(ext, 3), attributes, tail), buf)) == base + "." + ext
  {
    var e := Joined(Padded(base, 8) + Padded(ext, 3), attributes, tail);
    var s, t, n := Chars(Padded(base, 8)), Chars(Padded(ext, 3)), |base|;
    FieldBytes(base, 8);
    FieldBytes(ext, 3);
    assert PaddedWith(s, base) && PaddedWith(t, ext) && NUL !in base;
    assert Chars(e)[..8] == s && Chars(e[8..])[..3] == t;
    hide Chars, Padded, CString, TrimEnd, PaddedWith, IsField, IsText;
    CopiedField(buf, Chars(e), 0, 8);
    var b1 := Copied(buf, Chars(e), 0, 9);
    BasePart(buf, b1, s, base);
    var b2 := Copied(Trimmed(b1, 0, 8), ".", n, 2);
    CopiedField(b2, Chars(e[8..]), n + 1, 3);
    var b3 := Copied(b2, Chars(e[8..]), n + 1, 4);
    hide Copied;
    ExtPart(b2, b3, n + 1, t, ext);
  }

  lemma DotCopied(buf: seq<char>, at: nat)
    requires at + 2 <= |buf|
    ensures Copied(buf, ".", at, 2) == buf[..at] + "." + [NUL] + buf[at + 2..]
  {
    CStringWhole(".");
    assert CString(".")[..1] == ".";
  }

  // ---- whole directories

  /** The eleven characters of a directory with an extension. */
  function Eleven(base: seq<char>, ext: seq<char>): seq<char>
    requires IsField(base, 8) && IsField(ext, 3)
  {
    if ext == [] then base else Chars(Padded(base, 8)) + ext
  }

  lemma ElevenField(base: seq<char>, ext: seq<char>)
    requires IsField(base, 8) && IsField(ext, 3)
    ensures IsField(Eleven(base, ext), 11)
    ensures Padded(Eleven(base, ext), 11) == Padded(base, 8) + Padded(ext, 3)
  {
    FieldBytes(base, 8);
  }

  function ShortEntry(item: Item): Entry
    requires IsItem(item) && !item.Skipped?
  {
    match item
    case Long(name, short, attributes, tail) => Joined(short, attributes, tail)
    case Short(base, ext, attributes, tail) => Joined(Padded(Stored(base), 8) + Padded(ext, 3), attributes, tail)
    case Label(name, attributes, tail) => Joined(Padded(Stored(name), 11), attributes, tail)
  }

  function Entries(item: Item): seq<Entry>
    requires IsItem(item)
  {
    if item.Skipped? then [item.entry]
    else if item.Long? then LfnEntries(item.name, Number(NameSum(item.short)), Slots(item.name)) + [ShortEntry(item)]
    else [ShortEntry(item)]
  }

  function AllEntries(items: seq<Item>): seq<Entry>
    requires forall i :: 0 <= i < |items| ==> IsItem(items[i])
  {
    if items == [] then [] else Entries(items[0]) + AllEntries(items[1..])
  }

  /** The name an item stands for; erased and device entries have none. */
  function NameOf(item: Item): seq<seq<char>> {
    match item
    case Long(name, _, _, _) => [name]
    case Short(base, ext, _, _) => [if ext == [] then base else base + "." + ext]
    case Label(name, _, _) => [name]
    case Skipped(_) => []
  }

  function AllNames(items: seq<Item>): seq<seq<char>> {
    if items == [] then [] else NameOf(items[0]) + AllNames(items[1..])
  }

  /** The parser and the name buffer behind an item. */
  function After(item: Item, p: Parser, buf: seq<char>): (r: (Parser, seq<char>))
    requires IsItem(item) && |buf| >= MAX_FILENAME_SIZE
    ensures |r.1| == |buf|
  {
    match item
    case Long(name, short, _, _) => (Parser(false, Checksum(short)), Written(buf, SlotText(name), 0))
    case Short(_, _, attributes, _) =>
      (p, if IsDirectory(attributes) then UndottedShort(ShortEntry(item), buf) else DottedShort(ShortEntry(item), buf))
    case Label(_, _, _) => (p, UndottedShort(ShortEntry(item), buf))
    case Skipped(_) => (p.(parsing := false), buf)
  }

  /**
    The name that is read: a long name filling its slots runs on into the old buffer, a file keeps its dot, and a
    directory has none.
   */
  function NameRead(item: Item, buf: seq<char>): seq<seq<char>>
    requires IsItem(item) && |buf| >= MAX_FILENAME_SIZE
  {
    match item
    case Long(name, _, _, _) => [CString(Narrowed(name) + if |name| % SLOT == 0 then buf[|name|..] else [])]
    case Short(base, ext, attributes, _) =>
      if IsDirectory(attributes) then [Eleven(Stored(base), ext)] else [Stored(base) + "." + ext]
    case Label(name, _, _) => [Stored(name)]
    case Skipped(_) => []
  }

  lemma ShortFields(item: Item)
    requires IsItem(item) && !item.Skipped?
    ensures var e := ShortEntry(item);
            && e[0] != 0 && e[0] != FREE_ENTRY && Attributes(e) == item.attributes
            && (item.Long? ==> e[..11] == item.short)
  {
    hide Padded, Stored;
    match item
    case Long(_, _, _, _) =>
    case Short(base, _, _, _) => StoredField(base, 8);
    case Label(name, _, _) => StoredField(name, 11);
  }

  lemma AttributeKinds(attributes: Byte)
    ensures IsUndotted(attributes) <==> IsDirectory(attributes) || IsLabel(attributes)
    ensures attributes == LONG_NAME ==> IsLabel(attributes)
    ensures IsSkipped(attributes) <==> IsReserved(attributes)
  {
    ReservedIsSkipped(attributes);
    hide IsSkipped, IsReserved;
  }

  lemma ReservedIsSkipped(attributes: Byte)
    ensures IsSkipped(attributes) <==> IsReserved(attributes)
  {
  }

  lemma ShortHandled(e: Entry, p: Parser, buf: seq<char>)
    requires e[0] != FREE_ENTRY && Attributes(e) != LONG_NAME && !IsSkipped(Attributes(e)) && |buf| >= MAX_FILENAME_SIZE
    ensures Fits(e, |buf|)
    ensures Handled(e, p, buf) ==
            if p.parsing && p.checksum == Checksum(e[..11]) then (p.(parsing := false), buf, true)
            else (p, if IsUndotted(Attributes(e)) then UndottedShort(e, buf) else DottedShort(e, buf), true)
  {
    hide Checksum, UndottedShort, DottedShort;
  }

  lemma ShortRead(item: Item, p: Parser, buf: seq<char>)
    requires IsItem(item) && !item.Skipped? && |buf| >= MAX_FILENAME_SIZE
    requires if item.Long? then p == Parser(true, Checksum(item.short)) else !p.parsing
    ensures Fits(ShortEntry(item), |buf|) && ShortEntry(item)[0] != 0
    ensures Handled(ShortEntry(item), p, buf) ==
            if item.Long? then (p.(parsing := false), buf, true)
            else (After(item, p, buf).0, After(item, p, buf).1, true)
  {
    ShortFields(item);
    AttributeKinds(item.attributes);
    ShortHandled(ShortEntry(item), p, buf);
    hide Handled, ShortEntry, DottedShort, UndottedShort, Checksum;
  }

  lemma ShortName(item: Item, p: Parser, buf: seq<char>)
    requires IsItem(item) && (item.Short? || item.Label?) && |buf| >= MAX_FILENAME_SIZE
    ensures [CString(After(item, p, buf).1)] == NameRead(item, buf)
  {
    hide CString, DottedShort, UndottedShort, Padded, Stored, Eleven;
    match item
    case Short(base, ext, attributes, tail) =>
      StoredField(base, 8);
      if IsDirectory(attributes) {
        ElevenField(Stored(base), ext);
        UndottedText(Eleven(Stored(base), ext), attributes, tail, buf);
      } else {
        DottedText(Stored(base), ext, attributes, tail, buf);
      }
    case Label(name, attributes, tail) =>
      StoredField(name, 11);
      UndottedText(Stored(name), attributes, tail, buf);
  }

  /** Reading one item: its name, and the state behind it. */
  lemma ItemRead(item: Item, rest: seq<Entry>, p: Parser, buf: seq<char>)
    requires IsItem(item) && !p.parsing && |buf| >= MAX_FILENAME_SIZE && AllFit(rest, |buf|)
    ensures AllFit(Entries(item) + rest, |buf|)
    ensures Names(Entries(item) + rest, p, buf) ==
            NameRead(item, buf) + Names(rest, After(item, p, buf).0, After(item, p, buf).1)
    ensures !After(item, p, buf).0.parsing
  {
    if item.Skipped? {
      NamesHead(item.entry, rest, p, buf);
    } else if item.Long? {
      LongRead(item, rest, p, buf);
    } else {
      ShortRead(item, p, buf);
      ShortName(item, p, buf);
      hide Names, CString, Handled, Fits, AllFit, ShortEntry;
      NamesHead(ShortEntry(item), rest, p, buf);
    }
  }

  lemma LongRead(item: Item, rest: seq<Entry>, p: Parser, buf: seq<char>)
    requires IsItem(item) && item.Long? && |buf| >= MAX_FILENAME_SIZE && AllFit(rest, |buf|)
    ensures AllFit(Entries(item) + rest, |buf|)
    ensures Names(Entries(item) + rest, p, buf) ==
            NameRead(item, buf) + Names(rest, After(item, p, buf).0, After(item, p, buf).1)
  {
    hide *;
    LongFacts(item);
    LongReads(item, buf);
    LongAfter(item, p, buf);
    LongParts(item, rest);
    var name, sum := item.name, Checksum(item.short);
    var full := Written(buf, SlotText(name), 0);
    SlotTextWhole(name);
    ShortRead(item, Parser(true, sum), full);
    NamesHead(ShortEntry(item), rest, Parser(true, sum), full);
    LfnRun(name, sum, Slots(name), [ShortEntry(item)] + rest, p, buf);
  }

  lemma LongFacts(item: Item)
    requires IsItem(item) && item.Long?
    ensures IsWide(item.name) && item.name != [] && 1 <= Slots(item.name) <= MAX_SLOTS
    ensures SLOT * Slots(item.name) < MAX_FILENAME_SIZE
  {
    hide IsWide;
  }

  lemma SlotTextWhole(name: seq<char>)
    requires IsWide(name)
    ensures SlotText(name)[..SLOT * Slots(name)] == SlotText(name)
  {
    hide SlotText;
  }

  lemma LongReads(item: Item, buf: seq<char>)
    requires IsItem(item) && item.Long? && |buf| >= MAX_FILENAME_SIZE
    ensures |SlotText(item.name)| <= |buf| && NameRead(item, buf) == [CString(Written(buf, SlotText(item.name), 0))]
  {
    LongFacts(item);
    LongNameRead(item.name, buf);
    hide CString, Written, SlotText, Slots, IsWide, Narrowed;
  }

  lemma LongAfter(item: Item, p: Parser, buf: seq<char>)
    requires IsItem(item) && item.Long? && |buf| >= MAX_FILENAME_SIZE
    ensures |SlotText(item.name)| <= |buf|
    ensures After(item, p, buf) == (Parser(false, Checksum(item.short)), Written(buf, SlotText(item.name), 0))
  {
    LongFacts(item);
    hide Written, SlotText, Slots, IsWide, Checksum;
  }

  lemma LongParts(item: Item, rest: seq<Entry>)
    requires IsItem(item) && item.Long?
    ensures IsWide(item.name) && Slots(item.name) <= MAX_SLOTS
    ensures Entries(item) + rest ==
            LfnEntries(item.name, Checksum(item.short), Slots(item.name)) + ([ShortEntry(item)] + rest)
  {
    LongFacts(item);
    ChecksumIsNameSum(item.short);
    hide LfnEntries, ShortEntry, Checksum, NameSum, Number, Slots, IsWide;
  }

  /** A name that fills its slots finds a terminator behind it in the buffer. */
  predicate Ends(item: Item, buf: seq<char>)
    requires IsItem(item) && |buf| >= MAX_FILENAME_SIZE
  {
    item.Long? && |item.name| % SLOT == 0 ==> buf[|item.name|] == NUL
  }

  /** Every name that fills its slots finds a terminator behind it in the buffer. */
  predicate Clean(items: seq<Item>, p: Parser, buf: seq<char>)
    requires (forall i :: 0 <= i < |items| ==> IsItem(items[i])) && |buf| >= MAX_FILENAME_SIZE
    decreases |items|
  {
    items == [] || (
      && Ends(items[0], buf)
      && Clean(items[1..], After(items[0], p, buf).0, After(items[0], p, buf).1))
  }

  /**
    The parser spells the name of an item as it is: a long name has single-byte characters, a file has an extension
    and a directory has none, and the first character of a short name is not 0xE5.
   */
  predicate Spelled(item: Item) {
    match item
    case Long(name, _, _, _) => IsText(name)
    case Short(base, ext, attributes, _) => Kept(base) && (IsDirectory(attributes) <==> ext == [])
    case Label(name, _, _) => Kept(name)
    case Skipped(_) => true
  }

  lemma ReadExactly(item: Item, buf: seq<char>)
    requires IsItem(item) && |buf| >= MAX_FILENAME_SIZE
    ensures |NameRead(item, buf)| == |NameOf(item)|
    ensures NameRead(item, buf) == NameOf(item) <==> Ends(item, buf) && Spelled(item)
  {
    match item
    case Long(_, _, _, _) => LongExactly(item, buf);
    case Short(base, ext, attributes, _) => ShortExactly(item, buf);
    case Label(name, _, _) => StoredField(name, 11);
    case Skipped(_) =>
  }

  lemma LongExactly(item: Item, buf: seq<char>)
    requires IsItem(item) && item.Long? && |buf| >= MAX_FILENAME_SIZE
    ensures NameRead(item, buf) == NameOf(item) <==> Ends(item, buf) && IsText(item.name)
  {
    var name, low := item.name, Narrowed(item.name);
    var more := if |name| % SLOT == 0 then buf[|name|..] else [];
    if IsText(name) {
      NarrowText(name);
      CStringAppend(name, more);
      CStringEmpty(more);
      hide Narrowed, CString, IsText, IsWide;
      var rest := CString(more);
      assert more != [] ==> more[0] == buf[|name|];
      assert |name + rest| == |name| + |rest|;
      assert rest == [] ==> name + rest == name;
    } else {
      var i :| 0 <= i < |name| && name[i] as int >= 256;
      assert (low + more)[i] == low[i] != name[i];
    }
  }

  lemma CStringEmpty(s: seq<char>)
    ensures CString(s) == [] <==> s == [] || s[0] == NUL
  {
  }

  lemma ShortExactly(item: Item, buf: seq<char>)
    requires IsItem(item) && item.Short? && |buf| >= MAX_FILENAME_SIZE
    ensures NameRead(item, buf) == NameOf(item) <==> Spelled(item)
  {
    var base, ext, stored := item.base, item.ext, Stored(item.base);
    StoredField(base, 8);
    FieldBytes(stored, 8);
    hide Stored, Padded, IsField;
    if ext == [] {
      assert |stored + "." + ext| == |base| + 1;
    } else if IsDirectory(item.attributes) {
      var padded := Chars(Padded(stored, 8));
      assert |base| < 8 ==> (padded + ext)[|base|] == ' ' && (base + "." + ext)[|base|] == '.';
      assert |padded + ext| == 8 + |ext| && |base + "." + ext| == |base| + 1 + |ext|;
    } else {
      assert (stored + "." + ext)[..|base|] == stored && (base + "." + ext)[..|base|] == base;
    }
  }

  lemma SplitEqual<T>(a: seq<T>, b: seq<T>, c: seq<T>, d: seq<T>)
    requires |a| == |b|
    ensures a + c == b + d <==> a == b && c == d
  {
    assert a + c == b + d ==> (a + c)[..|a|] == (b + d)[..|b|] && (a + c)[|a|..] == (b + d)[|b|..];
    assert (a + c)[..|a|] == a && (a + c)[|a|..] == c;
    assert (b + d)[..|b|] == b && (b + d)[|b|..] == d;
  }

  predicate AllSpelled(items: seq<Item>) {
    forall i :: 0 <= i < |items| ==> Spelled(items[i])
  }

  lemma {:induction false} ReadBackIfClean(items: seq<Item>, p: Parser, buf: seq<char>)
    requires forall i :: 0 <= i < |items| ==> IsItem(items[i])
    requires !p.parsing && |buf| >= MAX_FILENAME_SIZE
    ensures AllFit(AllEntries(items), |buf|)
    ensures Names(AllEntries(items), p, buf) == AllNames(items) <==> Clean(items, p, buf) && AllSpelled(items)
    decreases |items|
  {
    if items != [] {
      var item, next := items[0], After(items[0], p, buf);
      var rest := AllEntries(items[1..]);
      ItemRead(item, [], p, buf);
      ReadBackIfClean(items[1..], next.0, next.1);
      hide IsItem, Entries, Names, NameOf, NameRead, After, AllFit;
      ItemRead(item, rest, p, buf);
      ReadExactly(item, buf);
      assert AllSpelled(items) <==> Spelled(item) && AllSpelled(items[1..]);
      hide Spelled;
      SplitEqual(NameRead(item, buf), NameOf(item), Names(rest, next.0, next.1), AllNames(items[1..]));
    }
  }

  // ---- the same condition on the names and the buffer alone

  /** A long name without a terminator of its own. */
  predicate Fills(item: Item) {
    item.Long? && |item.name| % SLOT == 0
  }

  lemma FillingName(item: Item)
    requires IsItem(item) && Fills(item)
    ensures SLOT <= |item.name| < MAX_FILENAME_SIZE
  {
    hide IsWide;
  }

  predicate AreItems(items: seq<Item>) {
    forall i :: 0 <= i < |items| ==> IsItem(items[i])
  }

  /** No long name of items is longer than n. */
  predicate NoneLonger(items: seq<Item>, n: nat) {
    forall i :: 0 <= i < |items| && items[i].Long? ==> |items[i].name| <= n
  }

  /** Position n of the name buffer holds a terminator. */
  predicate EndsAt(buf: seq<char>, n: nat) {
    n < |buf| && buf[n] == NUL
  }

  /** Behind every name that fills its slots the buffer holds a terminator, and no earlier long name reaches there. */
  predicate Clear(items: seq<Item>, buf: seq<char>) {
    forall j :: 0 <= j < |items| && Fills(items[j]) ==>
      EndsAt(buf, |items[j].name|) && NoneLonger(items[..j], |items[j].name|)
  }

  lemma ShortKeeps(e: Entry, buf: seq<char>, k: nat)
    requires SLOT <= k < |buf| && |buf| >= 16
    ensures DottedShort(e, buf)[k] == buf[k] && UndottedShort(e, buf)[k] == buf[k]
  {
    hide CString;
    var b1 := Copied(buf, Chars(e), 0, 9);
    assert b1[k] == buf[k];
    var p := TrimEnd(b1, 0, 8);
    var b2 := Copied(Trimmed(b1, 0, 8), ".", p, 2);
    assert b2[k] == buf[k];
    assert Copied(b2, Chars(e[8..]), p + 1, 4)[k] == buf[k];
    assert Copied(b1, Chars(e[8..]), CopyLength(Chars(e), 9), 4)[k] == buf[k];
  }

  /** What an item leaves behind a whole number of slots. */
  lemma AfterAt(item: Item, p: Parser, buf: seq<char>, k: nat)
    requires IsItem(item) && |buf| >= MAX_FILENAME_SIZE && SLOT <= k < MAX_FILENAME_SIZE && k % SLOT == 0
    requires item.Long? ==> IsText(item.name)
    ensures EndsAt(After(item, p, buf).1, k) <==> EndsAt(buf, k) && (item.Long? ==> |item.name| <= k)
  {
    if item.Long? {
      LongFacts(item);
      assert k < |SlotText(item.name)| ==> k < |item.name|;
      hide IsItem;
    } else if !item.Skipped? {
      ShortKeeps(ShortEntry(item), buf, k);
      hide IsItem, DottedShort, UndottedShort, ShortEntry;
    }
  }

  lemma ClearHead(items: seq<Item>, buf: seq<char>, next: seq<char>, j: nat)
    requires 0 < j < |items| && Fills(items[j])
    requires EndsAt(next, |items[j].name|) <==>
             EndsAt(buf, |items[j].name|) && (items[0].Long? ==> |items[0].name| <= |items[j].name|)
    ensures EndsAt(buf, |items[j].name|) && NoneLonger(items[..j], |items[j].name|) <==>
            EndsAt(next, |items[j].name|) && NoneLonger(items[1..][..j - 1], |items[j].name|)
  {
    assert items[..j] == [items[0]] + items[1..][..j - 1];
  }

  lemma {:induction false} CleanIsClear(items: seq<Item>, p: Parser, buf: seq<char>)
    requires AreItems(items) && AllSpelled(items) && |buf| >= MAX_FILENAME_SIZE
    ensures Clean(items, p, buf) <==> Clear(items, buf)
    decreases |items|
  {
    if items != [] {
      var next := After(items[0], p, buf);
      CleanIsClear(items[1..], next.0, next.1);
      forall j | 0 < j < |items| && Fills(items[j])
        ensures EndsAt(buf, |items[j].name|) && NoneLonger(items[..j], |items[j].name|) <==>
                EndsAt(next.1, |items[j].name|) && NoneLonger(items[1..][..j - 1], |items[j].name|)
      {
        FillingName(items[j]);
        AfterAt(items[0], p, buf, |items[j].name|);
        ClearHead(items, buf, next.1, j);
      }
      assert Ends(items[0], buf) <==> (Fills(items[0]) ==> EndsAt(buf, |items[0].name|)) by {
        if Fills(items[0]) {
          FillingName(items[0]);
        }
      }
      hide IsItem, After, EndsAt, Fills, NoneLonger, Ends;
      ClearSplit(items, buf, next.1);
    }
  }

  lemma ClearSplit(items: seq<Item>, buf: seq<char>, next: seq<char>)
    requires items != []
    requires forall j :: 0 < j < |items| && Fills(items[j]) ==>
               (EndsAt(buf, |items[j].name|) && NoneLonger(items[..j], |items[j].name|) <==>
                EndsAt(next, |items[j].name|) && NoneLonger(items[1..][..j - 1], |items[j].name|))
    ensures Clear(items, buf) <==> (Fills(items[0]) ==> EndsAt(buf, |items[0].name|)) && Clear(items[1..], next)
  {
    hide EndsAt;
    assert items[..0] == [];
    assert forall j :: 0 < j < |items| ==> items[j] == items[1..][j - 1];
    assert forall j :: 0 <= j < |items| - 1 ==> items[1..][j] == items[j + 1];
  }

  /**
    A directory is read back name by name exactly when the parser spells every name as it is, behind every name that
    fills its slots the buffer holds a terminator, and no earlier long name is longer.
   */
  lemma DirectoryRoundTrip(items: seq<Item>, p: Parser, buf: seq<char>)
    requires AreItems(items) && !p.parsing && |buf| >= MAX_FILENAME_SIZE
    ensures AllFit(AllEntries(items), |buf|)
    ensures Names(AllEntries(items), p, buf) == AllNames(items) <==> Clear(items, buf) && AllSpelled(items)
  {
    ReadBackIfClean(items, p, buf);
    hide AllEntries, Names, AllNames, Clear, Clean;
    if AllSpelled(items) {
      CleanIsClear(items, p, buf);
    }
  }

  /** No name of a multiple of 13 characters: what the buffer held does not matter. */
  lemma TerminatedRoundTrip(items: seq<Item>, p: Parser, buf: seq<char>)
    requires AreItems(items) && !p.parsing && |buf| >= MAX_FILENAME_SIZE
    requires forall i :: 0 <= i < |items| ==> !Fills(items[i])
    ensures AllFit(AllEntries(items), |buf|)
    ensures Names(AllEntries(items), p, buf) == AllNames(items) <==> AllSpelled(items)
  {
    DirectoryRoundTrip(items, p, buf);
  }

  function Listed(base: seq<char>, ext: seq<char>, attributes: Byte): Item {
    Short(base, ext, attributes, seq(20, _ => 0))
  }

  /** What is read from a directory that holds one 8.3 name. */
  lemma ListedAlone(base: seq<char>, ext: seq<char>, attributes: Byte, p: Parser, buf: seq<char>)
    requires IsName(base, 8) && IsField(ext, 3) && !IsReserved(attributes) && !IsLabel(attributes)
    requires !p.parsing && |buf| >= MAX_FILENAME_SIZE
    ensures IsItem(Listed(base, ext, attributes))
    ensures NameOf(Listed(base, ext, attributes)) == [if ext == [] then base else base + "." + ext]
    ensures AllFit(AllEntries([Listed(base, ext, attributes)]), |buf|)
    ensures Names(AllEntries([Listed(base, ext, attributes)]), p, buf) ==
            [if IsDirectory(attributes) then Eleven(Stored(base), ext) else Stored(base) + "." + ext]
  {
    var item := Listed(base, ext, attributes);
    NamesEmpty(After(item, p, buf).0, After(item, p, buf).1);
    ItemRead(item, [], p, buf);
    assert AllEntries([item]) == Entries(item) + [];
    hide Entries, Names, After;
  }

  /** A file without extension is read with a dot behind its name. */
  lemma FileKeepsDot(p: Parser, buf: seq<char>)
    requires !p.parsing && |buf| >= MAX_FILENAME_SIZE
    ensures var item := Listed("KERNEL", "", 0x20);
            && IsItem(item) && NameOf(item) == ["KERNEL"] && AllFit(AllEntries([item]), |buf|)
            && Names(AllEntries([item]), p, buf) == ["KERNEL."]
  {
    assert IsName("KERNEL", 8) && IsField("", 3) && Stored("KERNEL") == "KERNEL";
    assert !IsDirectory(0x20) && !IsReserved(0x20) && !IsLabel(0x20);
    hide *;
    ListedAlone("KERNEL", "", 0x20, p, buf);
    assert "KERNEL" + "." + "" == "KERNEL.";
  }

  lemma SysOldText()
    ensures IsName("SYS", 8) && IsField("OLD", 3) && Stored("SYS") == "SYS"
    ensures Eleven("SYS", "OLD") == "SYS     OLD"
  {
    assert Chars(Padded("SYS", 8)) == "SYS     ";
    hide Chars, Padded;
  }

  /** A directory with an extension is read without a dot, the spaces of its base kept. */
  lemma DirectoryLosesDot(p: Parser, buf: seq<char>)
    requires !p.parsing && |buf| >= MAX_FILENAME_SIZE
    ensures var item := Listed("SYS", "OLD", 0x10);
            && IsItem(item) && NameOf(item) == ["SYS.OLD"] && AllFit(AllEntries([item]), |buf|)
            && Names(AllEntries([item]), p, buf) == ["SYS     OLD"]
  {
    assert IsDirectory(0x10) && !IsReserved(0x10) && !IsLabel(0x10);
    SysOldText();
    hide *;
    ListedAlone("SYS", "OLD", 0x10, p, buf);
    assert "SYS" + "." + "OLD" == "SYS.OLD";
  }

  /** A leading 0xE5 is read as the byte it is stored as. */
  lemma LeadingE5(base: seq<char>, p: Parser, buf: seq<char>)
    requires IsName(base, 8) && base != [] && base[0] as int == FREE_ENTRY && !p.parsing && |buf| >= MAX_FILENAME_SIZE
    ensures var item := Listed(base, "TXT", 0x20);
            && IsItem(item) && NameOf(item) == [base + "." + "TXT"] && AllFit(AllEntries([item]), |buf|)
            && Names(AllEntries([item]), p, buf) == [[FIRST_E5 as char] + base[1..] + "." + "TXT"]
  {
    assert IsField("TXT", 3) && IsText(base);
    assert Stored(base) == [FIRST_E5 as char] + base[1..];
    assert !IsDirectory(0x20) && !IsReserved(0x20) && !IsLabel(0x20);
    hide *;
    ListedAlone(base, "TXT", 0x20, p, buf);
  }

  function Plain(name: seq<char>): Item {
    Long(name, seq(11, _ => 0x41), 0x20, seq(20, _ => 0))
  }

  /** Thirteen characters behind fourteen: the second name is misread whatever the buffer held. */
  lemma ThirteenBehindFourteen(p: Parser, buf: seq<char>)
    requires !p.parsing && |buf| >= MAX_FILENAME_SIZE
    ensures var items := [Plain("annual_reports"), Plain("annual_report")];
            AreItems(items) && AllFit(AllEntries(items), |buf|) && Names(AllEntries(items), p, buf) != AllNames(items)
  {
    var items := [Plain("annual_reports"), Plain("annual_report")];
    assert AreItems(items);
    DirectoryRoundTrip(items, p, buf);
    hide AllEntries, Names, AllNames;
    assert Fills(items[1]) && items[..1][0] == items[0];
    assert !NoneLonger(items[..1], 13);
  }
}
