/** EntryParser::handle_next and the directory loop around it, against the functions of FatNames. */
module FatDirectory {
  import opened Buffers
  import Bytes
  import opened CStrings
  import FatEncoding
  import opened FatNames
  import opened Machine

  lemma ChecksumNext(c: Byte, bytes: seq<Byte>, k: nat)
    requires k < |bytes|
    ensures ChecksumFrom(c, bytes[k..]) == ChecksumFrom(ChecksumStep(c, bytes[k]), bytes[k + 1..])
  {
    hide ChecksumStep;
    assert bytes[k..][1..] == bytes[k + 1..];
  }

  lemma StepAsWritten(c: Byte, b: Byte)
    ensures ((if c % 2 == 1 then 0x80 else 0) + c / 2 + b) % 256 == ChecksumStep(c, b)
  {
  }

  method CalculateChecksum(shortname: seq<Byte>) returns (checksum: Byte)
    requires |shortname| == 11
    ensures checksum == Checksum(shortname) == Bytes.Number(FatEncoding.NameSum(shortname))
  {
    FatEncoding.ChecksumIsNameSum(shortname);
    hide FatEncoding.NameSum;
    checksum := 0;
    var i := 11;
    hide ChecksumFrom, ChecksumStep, RotateRight;
    assert shortname[0..] == shortname;
    while i > 0
      invariant 0 <= i <= 11
      invariant ChecksumFrom(checksum, shortname[11 - i..]) == ChecksumFrom(0, shortname)
    {
      var b := shortname[11 - i];
      ChecksumNext(checksum, shortname, 11 - i);
      StepAsWritten(checksum, b);
      checksum := ((if checksum % 2 == 1 then 0x80 else 0) + checksum / 2 + b) % 256;
      i := i - 1;
    }
    NoBytes(checksum, shortname[11..]);
  }

  lemma NoBytes(c: Byte, bytes: seq<Byte>)
    requires bytes == []
    ensures ChecksumFrom(c, bytes) == c
  {
  }

  /** The text of a buffer after a bounded copy into it. */
  method CopyInto(source: seq<char>, dest: array<char>, at: nat, maxSize: nat) returns (n: nat)
    requires 0 < maxSize && at + maxSize <= dest.Length
    modifies dest
    ensures n == CopyLength(source, maxSize)
    ensures dest[..] == Copied(old(dest[..]), source, at, maxSize)
  {
    n := Strlcpy(source, dest, at, maxSize);
    ghost var text := CString(source)[..n] + [NUL];
    assert |text| == n + 1;
    hide CString, CopyLength;
    assert dest[at..at + n + 1] == dest[at..at + n] + [dest[at + n]];
    assert dest[..] == dest[..at] + dest[at..at + n + 1] + dest[at + n + 1..];
  }

  method SpacedStringToCStr(target: array<char>, at: nat, length: nat) returns (end: nat)
    requires at + length < target.Length
    modifies target
    ensures end == TrimEnd(old(target[..]), at, length)
    ensures target[..] == Trimmed(old(target[..]), at, length)
    ensures at <= end <= at + length && target[end] == NUL && (end > at ==> old(target[end - 1]) != ' ')
    ensures forall i :: end <= i < at + length ==> old(target[i]) == ' '
    ensures forall i :: 0 <= i < target.Length && i != end ==> target[i] == old(target[i])
  {
    var ptr := at + length - 1;
    while ptr >= at && target[ptr] == ' '
      invariant at - 1 <= ptr < at + length
      invariant forall i :: ptr < i < at + length ==> target[i] == ' '
      invariant TrimEnd(target[..], at, ptr + 1 - at) == TrimEnd(target[..], at, length)
    {
      ptr := ptr - 1;
    }
    end := ptr + 1;
    target[end] := NUL;
  }

  /** The low bytes of UTF-16 characters. */
  method Utf16ToAscii(e: Entry, buffer: array<char>, at: nat)
    requires at + SLOT <= buffer.Length
    modifies buffer
    ensures buffer[..] == Written(old(buffer[..]), LfnChars(e), at)
  {
    var i := 0;
    while i < SLOT
      invariant 0 <= i <= SLOT
      invariant forall k :: 0 <= k < i ==> buffer[at + k] == LfnChars(e)[k]
      invariant forall k :: 0 <= k < buffer.Length && !(at <= k < at + i) ==> buffer[k] == old(buffer[k])
    {
      buffer[at + i] := e[CharAt(i)] as char;
      i := i + 1;
    }
  }

  class EntryParser {
    var parsingLongFilename: bool
    var lfnChecksum: Byte

    ghost function State(): Parser
      reads this
    {
      Parser(parsingLongFilename, lfnChecksum)
    }

    constructor ()
      ensures State() == IDLE
    {
      parsingLongFilename := false;
      lfnChecksum := 0;
    }

    method CopyShortName(e: Entry, filenameBuff: array<char>)
      requires filenameBuff.Length >= 16
      modifies filenameBuff
      ensures filenameBuff[..] == (if IsUndotted(Attributes(e)) then UndottedShort(e, old(filenameBuff[..]))
                                   else DottedShort(e, old(filenameBuff[..])))
    {
      hide Copied, Trimmed, TrimEnd, CString;
      var resultPtr := CopyInto(Chars(e), filenameBuff, 0, 9);
      if !IsUndotted(Attributes(e)) {
        resultPtr := SpacedStringToCStr(filenameBuff, 0, 8);
        DotLength();
        var n := CopyInto(".", filenameBuff, resultPtr, 2);
        resultPtr := resultPtr + n;
        var ext := CopyInto(Chars(e[8..]), filenameBuff, resultPtr, 4);
        var end := SpacedStringToCStr(filenameBuff, resultPtr, 3);
      } else {
        var ext := CopyInto(Chars(e[8..]), filenameBuff, resultPtr, 4);
        var end := SpacedStringToCStr(filenameBuff, 0, 11);
      }
    }

    lemma DotLength()
      ensures CopyLength(".", 2) == 1
    {
      CStringWhole(".");
    }

    method HandleNext(e: Entry, filenameBuff: array<char>) returns (ready: bool)
      requires Fits(e, filenameBuff.Length)
      modifies this, filenameBuff
      ensures (State(), filenameBuff[..], ready) == Handled(e, old(State()), old(filenameBuff[..]))
    {
      hide DottedShort, UndottedShort, Checksum, Written;
      if e[0] == ERASED {
        parsingLongFilename := false;
        return false;
      }
      if Attributes(e) == FATTR_LFN {
        var seqNum := SeqNum(e);
        var lfnOffset := SLOT * (seqNum - 1);
        lfnChecksum := e[13];
        parsingLongFilename := true;
        Utf16ToAscii(e, filenameBuff, lfnOffset);
        return false;
      }
      if IsSkipped(Attributes(e)) {
        parsingLongFilename := false;
        return false;
      }
      var useShortName := true;
      if parsingLongFilename {
        var sum := CalculateChecksum(e[..11]);
        if lfnChecksum == sum {
          useShortName := false;
          parsingLongFilename := false;
        }
      }
      if useShortName {
        CopyShortName(e, filenameBuff);
      }
      return true;
    }

    /** The loop of read_dir over the entries of one buffer. */
    method ReadEntries(entries: seq<Entry>, name: array<char>) returns (names: seq<seq<char>>)
      requires AllFit(entries, name.Length)
      modifies this, name
      ensures names == Names(entries, old(State()), old(name[..]))
      ensures (State(), name[..]) == AfterEntries(entries, old(State()), old(name[..]))
    {
      hide Handled, Names, AfterEntries, AllFit, Fits, CString;
      names := [];
      var i := 0;
      ghost var all, end := Names(entries, State(), name[..]), AfterEntries(entries, State(), name[..]);
      assert entries[0..] == entries;
      while i < |entries|
        invariant 0 <= i <= |entries| && AllFit(entries[i..], name.Length)
        invariant names + Names(entries[i..], State(), name[..]) == all
        invariant AfterEntries(entries[i..], State(), name[..]) == end
      {
        if entries[i][0] == 0 {
          break;
        }
        NamesStep(entries, i, State(), name[..]);
        var ready := HandleNext(entries[i], name);
        if ready {
          names := names + [CString(name[..])];
        }
        i := i + 1;
      }
      NamesEnd(entries, i, State(), name[..]);
    }

    lemma NamesEnd(entries: seq<Entry>, i: nat, p: Parser, buf: seq<char>)
      requires i <= |entries| && AllFit(entries[i..], |buf|) && (i < |entries| ==> entries[i][0] == 0)
      ensures Names(entries[i..], p, buf) == [] && AfterEntries(entries[i..], p, buf) == (p, buf)
    {
      assert i < |entries| ==> entries[i..][0] == entries[i];
    }

    lemma NamesStep(entries: seq<Entry>, i: nat, p: Parser, buf: seq<char>)
      requires i < |entries| && AllFit(entries[i..], |buf|) && entries[i][0] != 0
      ensures Fits(entries[i], |buf|) && AllFit(entries[i + 1..], |buf|)
      ensures var h := Handled(entries[i], p, buf);
              Names(entries[i..], p, buf) ==
              (if h.2 then [CString(h.1)] else []) + Names(entries[i + 1..], h.0, h.1)
      ensures var h := Handled(entries[i], p, buf);
              AfterEntries(entries[i..], p, buf) == AfterEntries(entries[i + 1..], h.0, h.1)
    {
      assert entries[i..][0] == entries[i] && entries[i..][1..] == entries[i + 1..];
      NamesFirst(entries[i..], p, buf);
      hide *;
    }

    /** read_dir over the clusters of a directory. */
    method ReadClusters(clusters: seq<seq<Entry>>, name: array<char>) returns (names: seq<seq<char>>)
      requires forall i :: 0 <= i < |clusters| ==> AllFit(clusters[i], name.Length)
      modifies this, name
      ensures names == ClusterNames(clusters, old(State()), old(name[..]))
    {
      hide Handled, Names, AfterEntries, AllFit;
      names := [];
      var i := 0;
      ghost var all := ClusterNames(clusters, State(), name[..]);
      assert clusters[0..] == clusters;
      while i < |clusters|
        invariant 0 <= i <= |clusters|
        invariant names + ClusterNames(clusters[i..], State(), name[..]) == all
      {
        assert clusters[i..][1..] == clusters[i + 1..];
        var more := ReadEntries(clusters[i], name);
        names := names + more;
        i := i + 1;
      }
    }
  }
}
