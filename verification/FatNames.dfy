/** FAT directory entries as raw bytes, and what the entry parser makes of them. */
module FatNames {
  import opened Buffers
  import opened CStrings
  import opened Machine

  /** One 32-byte directory entry; a long-name entry is the same bytes read otherwise. */
  type Entry = e: seq<Byte> | |e| == 32 witness seq(32, _ => 0)

  const ERASED := 0xE5
  const FATTR_VOLUMELABEL := 0x08
  const FATTR_SUBDIRECTORY := 0x10
  const FATTR_LFN := 0x0F
  const SLOT := 13

  function Attributes(e: Entry): Byte {
    e[11]
  }

  /** FATTR_DEVICE or FATTR_UNUSED is set. */
  predicate IsSkipped(attributes: Byte) {
    attributes / 64 != 0
  }

  /** FATTR_SUBDIRECTORY or FATTR_VOLUMELABEL is set. */
  predicate IsUndotted(attributes: Byte) {
    attributes / 8 % 4 != 0
  }

  /** The sequence number without its last-entry mark, bit 6. */
  function SeqNum(e: Entry): nat {
    e[0] / 128 * 128 + e[0] % 64
  }

  /** Where the low byte of the i-th UTF-16 character of a long-name entry lies. */
  function CharAt(i: nat): (r: nat)
    requires i < SLOT
    ensures r < 31
  {
    if i < 5 then 1 + 2 * i else if i < 11 then 14 + 2 * (i - 5) else 28 + 2 * (i - 11)
  }

  function LfnChars(e: Entry): (r: seq<char>)
    ensures |r| == SLOT
  {
    seq(SLOT, i requires 0 <= i < SLOT => e[CharAt(i)] as char)
  }

  function Chars(bytes: seq<Byte>): (r: seq<char>)
    ensures |r| == |bytes|
  {
    seq(|bytes|, i requires 0 <= i < |bytes| => bytes[i] as char)
  }

  // ---- the checksum of a short name

  function RotateRight(c: Byte): Byte {
    c % 2 * 128 + c / 2
  }

  function ChecksumStep(c: Byte, b: Byte): Byte {
    (RotateRight(c) + b) % 256
  }

  function ChecksumFrom(c: Byte, bytes: seq<Byte>): Byte
    decreases |bytes|
  {
    if bytes == [] then c else ChecksumFrom(ChecksumStep(c, bytes[0]), bytes[1..])
  }

  function Checksum(bytes: seq<Byte>): Byte {
    ChecksumFrom(0, bytes)
  }

  lemma RotateInjective(c: Byte, d: Byte)
    requires RotateRight(c) == RotateRight(d)
    ensures c == d
  {
    var q, r, s, t := c / 2, c % 2, d / 2, d % 2;
    assert c == 2 * q + r && d == 2 * s + t && q < 128 && s < 128;
  }

  lemma SameSum(x: Byte, y: Byte, b: Byte)
    requires (x + b) % 256 == (y + b) % 256
    ensures x == y
  {
    assert (x + b) % 256 == if x + b < 256 then x + b else x + b - 256;
    assert (y + b) % 256 == if y + b < 256 then y + b else y + b - 256;
  }

  lemma StepInjective(c: Byte, d: Byte, b: Byte)
    ensures ChecksumStep(c, b) == ChecksumStep(d, b) ==> c == d
    ensures ChecksumStep(b, c) == ChecksumStep(b, d) ==> c == d
  {
    hide RotateRight;
    if ChecksumStep(c, b) == ChecksumStep(d, b) {
      SameSum(RotateRight(c), RotateRight(d), b);
      RotateInjective(c, d);
    }
    if ChecksumStep(b, c) == ChecksumStep(b, d) {
      SameSum(c, d, RotateRight(b));
    }
  }

  lemma {:induction false} ChecksumInjective(c: Byte, d: Byte, bytes: seq<Byte>)
    requires ChecksumFrom(c, bytes) == ChecksumFrom(d, bytes)
    ensures c == d
    decreases |bytes|
  {
    hide ChecksumStep;
    if bytes != [] {
      ChecksumInjective(ChecksumStep(c, bytes[0]), ChecksumStep(d, bytes[0]), bytes[1..]);
      StepInjective(c, d, bytes[0]);
    }
  }

  /** No change of a single byte of a short name goes unnoticed. */
  lemma {:induction false} ChecksumSeesOneByte(c: Byte, bytes: seq<Byte>, i: nat, b: Byte)
    requires i < |bytes| && bytes[i] != b
    ensures ChecksumFrom(c, bytes[i := b]) != ChecksumFrom(c, bytes)
    decreases |bytes|
  {
    hide ChecksumStep;
    var changed := bytes[i := b];
    if i == 0 {
      assert changed[1..] == bytes[1..];
      StepInjective(bytes[0], b, c);
      if ChecksumFrom(c, changed) == ChecksumFrom(c, bytes) {
        ChecksumInjective(ChecksumStep(c, b), ChecksumStep(c, bytes[0]), bytes[1..]);
      }
    } else {
      assert changed[1..] == bytes[1..][i - 1 := b];
      ChecksumSeesOneByte(ChecksumStep(c, bytes[0]), bytes[1..], i - 1, b);
    }
  }

  // ---- the parser

  datatype Parser = Parser(parsing: bool, checksum: Byte)

  const IDLE := Parser(false, 0)

  /** The position behind the last character that is not a space. */
  function TrimEnd(buf: seq<char>, at: nat, length: nat): (r: nat)
    requires at + length <= |buf|
    ensures at <= r <= at + length
  {
    if length > 0 && buf[at + length - 1] == ' ' then TrimEnd(buf, at, length - 1) else at + length
  }

  function Trimmed(buf: seq<char>, at: nat, length: nat): (r: seq<char>)
    requires at + length < |buf|
    ensures |r| == |buf|
  {
    buf[TrimEnd(buf, at, length) := NUL]
  }

  function Copied(buf: seq<char>, source: seq<char>, at: nat, maxSize: nat): (r: seq<char>)
    requires 0 < maxSize && at + maxSize <= |buf|
    ensures |r| == |buf|
  {
    Written(buf, CString(source)[..CopyLength(source, maxSize)] + [NUL], at)
  }

  /** The buffer after the short name of a plain file is copied. */
  function DottedShort(e: Entry, buf: seq<char>): (r: seq<char>)
    requires |buf| >= 16
    ensures |r| == |buf|
  {
    var b1 := Copied(buf, Chars(e), 0, 9);
    var p := TrimEnd(b1, 0, 8);
    var b2 := Copied(Trimmed(b1, 0, 8), ".", p, 2);
    Trimmed(Copied(b2, Chars(e[8..]), p + 1, 4), p + 1, 3)
  }

  /** The buffer after the short name of a directory or label is copied. */
  function UndottedShort(e: Entry, buf: seq<char>): (r: seq<char>)
    requires |buf| >= 16
    ensures |r| == |buf|
  {
    var b1 := Copied(buf, Chars(e), 0, 9);
    Trimmed(Copied(b1, Chars(e[8..]), CopyLength(Chars(e), 9), 4), 0, 11)
  }

  predicate Fits(e: Entry, size: nat) {
    size >= 16 && (e[0] != ERASED && Attributes(e) == FATTR_LFN ==> SeqNum(e) > 0 && SLOT * SeqNum(e) <= size)
  }

  /** handle_next: the parser, the name buffer, and whether a name is ready. */
  function Handled(e: Entry, p: Parser, buf: seq<char>): (r: (Parser, seq<char>, bool))
    requires Fits(e, |buf|)
    ensures |r.1| == |buf|
  {
    if e[0] == ERASED then (p.(parsing := false), buf, false)
    else if Attributes(e) == FATTR_LFN then
      (Parser(true, e[13]), Written(buf, LfnChars(e), SLOT * (SeqNum(e) - 1)), false)
    else if IsSkipped(Attributes(e)) then (p.(parsing := false), buf, false)
    else if p.parsing && p.checksum == Checksum(e[..11]) then (p.(parsing := false), buf, true)
    else (p, if IsUndotted(Attributes(e)) then UndottedShort(e, buf) else DottedShort(e, buf), true)
  }

  /** Every entry up to the first empty one fits. */
  predicate AllFit(entries: seq<Entry>, size: nat)
    decreases |entries|
  {
    size >= 16 && (entries == [] || entries[0][0] == 0 || (Fits(entries[0], size) && AllFit(entries[1..], size)))
  }

  /** The names a directory gives, up to its first empty entry. */
  function Names(entries: seq<Entry>, p: Parser, buf: seq<char>): seq<seq<char>>
    requires AllFit(entries, |buf|)
    decreases |entries|
  {
    if entries == [] || entries[0][0] == 0 then []
    else
      var h := Handled(entries[0], p, buf);
      (if h.2 then [CString(h.1)] else []) + Names(entries[1..], h.0, h.1)
  }

  /** The parser and the name buffer behind a run of entries. */
  function AfterEntries(entries: seq<Entry>, p: Parser, buf: seq<char>): (r: (Parser, seq<char>))
    requires AllFit(entries, |buf|)
    ensures |r.1| == |buf|
    decreases |entries|
  {
    if entries == [] || entries[0][0] == 0 then (p, buf)
    else
      var h := Handled(entries[0], p, buf);
      AfterEntries(entries[1..], h.0, h.1)
  }

  /** No entry marks the end of the directory. */
  predicate NoEnd(entries: seq<Entry>) {
    forall i :: 0 <= i < |entries| ==> entries[i][0] != 0
  }

  lemma {:induction false} NamesAppend(a: seq<Entry>, b: seq<Entry>, p: Parser, buf: seq<char>)
    requires AllFit(a, |buf|) && AllFit(b, |buf|) && NoEnd(a)
    ensures AllFit(a + b, |buf|)
    ensures var mid := AfterEntries(a, p, buf); Names(a + b, p, buf) == Names(a, p, buf) + Names(b, mid.0, mid.1)
    decreases |a|
  {
    hide Handled, CString, Names, AfterEntries, Fits;
    if a == [] {
      assert a + b == b;
      NamesEmpty(p, buf);
    } else {
      NamesFirst(a, p, buf);
      var h := Handled(a[0], p, buf);
      NamesAppend(a[1..], b, h.0, h.1);
      assert (a + b)[0] == a[0] && (a + b)[1..] == a[1..] + b;
      NamesFirst(a + b, p, buf);
    }
  }

  lemma NamesFirst(entries: seq<Entry>, p: Parser, buf: seq<char>)
    requires entries != [] && entries[0][0] != 0
    ensures AllFit(entries, |buf|) <==> Fits(entries[0], |buf|) && AllFit(entries[1..], |buf|)
    ensures AllFit(entries, |buf|) ==>
              var h := Handled(entries[0], p, buf);
              && Names(entries, p, buf) == (if h.2 then [CString(h.1)] else []) + Names(entries[1..], h.0, h.1)
              && AfterEntries(entries, p, buf) == AfterEntries(entries[1..], h.0, h.1)
  {
    hide Handled, CString;
  }

  /** The names read from a directory cluster by cluster, each up to its own first empty entry. */
  function ClusterNames(clusters: seq<seq<Entry>>, p: Parser, buf: seq<char>): seq<seq<char>>
    requires forall i :: 0 <= i < |clusters| ==> AllFit(clusters[i], |buf|)
    decreases |clusters|
  {
    if clusters == [] then []
    else
      var mid := AfterEntries(clusters[0], p, buf);
      Names(clusters[0], p, buf) + ClusterNames(clusters[1..], mid.0, mid.1)
  }

  function OneDirectory(clusters: seq<seq<Entry>>): seq<Entry> {
    if clusters == [] then [] else clusters[0] + OneDirectory(clusters[1..])
  }

  /** Where the clusters are cut does not matter, even inside a long name, while only the last one has an end. */
  lemma {:induction false} ClustersAreOneDirectory(clusters: seq<seq<Entry>>, p: Parser, buf: seq<char>)
    requires forall i :: 0 <= i < |clusters| ==> AllFit(clusters[i], |buf|)
    requires forall i :: 0 <= i < |clusters| - 1 ==> NoEnd(clusters[i])
    requires |buf| >= 16
    ensures AllFit(OneDirectory(clusters), |buf|)
    ensures ClusterNames(clusters, p, buf) == Names(OneDirectory(clusters), p, buf)
    decreases |clusters|
  {
    hide Fits, Names, AfterEntries, Handled;
    if |clusters| == 1 {
      assert clusters[1..] == [] && clusters[0] + [] == clusters[0];
      assert OneDirectory([]) == [];
    } else if |clusters| > 1 {
      var mid := AfterEntries(clusters[0], p, buf);
      ClustersAreOneDirectory(clusters[1..], mid.0, mid.1);
      NamesAppend(clusters[0], OneDirectory(clusters[1..]), p, buf);
    } else {
      NamesEmpty(p, buf);
    }
  }

  /** The entries before the first empty one. */
  function BeforeEnd(entries: seq<Entry>): (r: seq<Entry>)
    ensures r <= entries && NoEnd(r) && (|r| < |entries| ==> entries[|r|][0] == 0)
  {
    if entries == [] || entries[0][0] == 0 then [] else [entries[0]] + BeforeEnd(entries[1..])
  }

  lemma {:induction false} CutNames(entries: seq<Entry>, p: Parser, buf: seq<char>)
    requires AllFit(entries, |buf|)
    ensures AllFit(BeforeEnd(entries), |buf|)
    ensures Names(BeforeEnd(entries), p, buf) == Names(entries, p, buf)
    ensures AfterEntries(BeforeEnd(entries), p, buf) == AfterEntries(entries, p, buf)
    decreases |entries|
  {
    var cut := BeforeEnd(entries);
    hide Handled, CString, Names, AfterEntries, Fits;
    if entries == [] || entries[0][0] == 0 {
      NamesEmpty(p, buf);
      NamesAtEnd(entries, p, buf);
    } else {
      NamesFirst(entries, p, buf);
      var h := Handled(entries[0], p, buf);
      CutNames(entries[1..], h.0, h.1);
      assert cut[0] == entries[0] && cut[1..] == BeforeEnd(entries[1..]);
      NamesFirst(cut, p, buf);
    }
  }

  lemma NamesAtEnd(entries: seq<Entry>, p: Parser, buf: seq<char>)
    requires AllFit(entries, |buf|) && (entries == [] || entries[0][0] == 0)
    ensures Names(entries, p, buf) == [] && AfterEntries(entries, p, buf) == (p, buf)
  {
  }

  /** The clusters, each cut at its first empty entry. */
  function Cuts(clusters: seq<seq<Entry>>): (r: seq<seq<Entry>>)
    ensures |r| == |clusters| && forall i :: 0 <= i < |r| ==> r[i] == BeforeEnd(clusters[i])
  {
    seq(|clusters|, i requires 0 <= i < |clusters| => BeforeEnd(clusters[i]))
  }

  /** An empty entry ends its cluster, not the directory: reading goes on with the next cluster. */
  lemma {:induction false} ClustersCut(clusters: seq<seq<Entry>>, p: Parser, buf: seq<char>)
    requires (forall i :: 0 <= i < |clusters| ==> AllFit(clusters[i], |buf|)) && |buf| >= 16
    ensures AllFit(OneDirectory(Cuts(clusters)), |buf|)
    ensures ClusterNames(clusters, p, buf) == Names(OneDirectory(Cuts(clusters)), p, buf)
  {
    hide Names, AfterEntries, AllFit, BeforeEnd;
    forall i | 0 <= i < |clusters| ensures AllFit(BeforeEnd(clusters[i]), |buf|) {
      CutNames(clusters[i], p, buf);
    }
    SameClusterNames(clusters, p, buf);
    ClustersAreOneDirectory(Cuts(clusters), p, buf);
  }

  lemma {:induction false} SameClusterNames(clusters: seq<seq<Entry>>, p: Parser, buf: seq<char>)
    requires forall i :: 0 <= i < |clusters| ==> AllFit(clusters[i], |buf|) && AllFit(BeforeEnd(clusters[i]), |buf|)
    ensures ClusterNames(Cuts(clusters), p, buf) == ClusterNames(clusters, p, buf)
    decreases |clusters|
  {
    hide Names, AfterEntries, AllFit, BeforeEnd;
    if clusters != [] {
      CutNames(clusters[0], p, buf);
      var mid := AfterEntries(clusters[0], p, buf);
      SameClusterNames(clusters[1..], mid.0, mid.1);
      assert Cuts(clusters)[1..] == Cuts(clusters[1..]);
    }
  }

  lemma NamesEmpty(p: Parser, buf: seq<char>)
    requires |buf| >= 16
    ensures AllFit([], |buf|) && Names([], p, buf) == [] && AfterEntries([], p, buf) == (p, buf)
  {
  }
}
