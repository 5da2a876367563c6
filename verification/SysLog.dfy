/** The system log of core/kernel.cpp: a ring of the last 2048 characters and its flattening. */
module SysLog {
  import opened Machine
  import opened Buffers
  import opened CStrings

  const SYSLOG_LENGTH := 2048

  /** The last n elements of s, or all of them. */
  function Last(s: seq<char>, n: nat): (r: seq<char>)
    ensures |r| == Min(|s|, n) && r <= s[|s| - |r|..]
  {
    if |s| <= n then s else s[|s| - n..]
  }

  lemma LastOfAppend(h: seq<char>, p: seq<char>, n: nat)
    ensures Last(h + p, n) == Last(Last(h, n) + p, n)
  {
    var a, b := Last(h + p, n), Last(Last(h, n) + p, n);
    forall k | 0 <= k < |a| ensures a[k] == b[k] {
    }
  }

  lemma LastOfLast(h: seq<char>, p: seq<char>, n: nat)
    ensures Last(h + p, n) == Last(h + Last(p, n), n)
  {
    var a, b := Last(h + p, n), Last(h + Last(p, n), n);
    forall k | 0 <= k < |a| ensures a[k] == b[k] {
    }
  }

  lemma DropFront(x: seq<char>, y: seq<char>, k: nat)
    requires k <= |x|
    ensures (x + y)[k..] == x[k..] + y
  {
  }

  /** The characters a ring holds, oldest first. */
  function Ring(buffer: seq<char>, writePtr: nat, isWrapped: bool): seq<char>
    requires writePtr <= |buffer|
  {
    if isWrapped then buffer[writePtr..] + buffer[..writePtr] else buffer[..writePtr]
  }

  lemma HistoryGrows(h: seq<char>, p: seq<char>, clamped: seq<char>)
    requires clamped == Last(p, SYSLOG_LENGTH)
    ensures Last(Last(h, SYSLOG_LENGTH) + clamped, SYSLOG_LENGTH) == Last(h + p, SYSLOG_LENGTH)
  {
    LastOfLast(h, p, SYSLOG_LENGTH);
    LastOfAppend(h, clamped, SYSLOG_LENGTH);
  }

  lemma Clamped(p: seq<char>, clamped: seq<char>)
    requires clamped == if |p| > SYSLOG_LENGTH then p[|p| - SYSLOG_LENGTH..] else p
    ensures clamped == Last(p, SYSLOG_LENGTH)
  {
  }

  /** A portion that fits between the write pointer and the end of the buffer. */
  lemma AppendFits(b: seq<char>, w: nat, isWrapped: bool, p: seq<char>)
    requires w + |p| <= |b|
    ensures Ring(Written(b, p, w), w + |p|, isWrapped) == Last(Ring(b, w, isWrapped) + p, |b|)
  {
    WrittenParts(b, p, w);
    hide Written;
    if isWrapped {
      assert b[w + |p|..] + (b[..w] + p) == b[w + |p|..] + b[..w] + p;
      assert b[w..][|p|..] == b[w + |p|..];
      DropFront(b[w..], b[..w] + p, |p|);
      assert b[w..] + b[..w] + p == b[w..] + (b[..w] + p);
      if p == [] {
        assert b[w..] + b[..w] + p == b[w..] + b[..w];
      }
    }
  }

  /** The buffer after both parts of a portion that runs over its end. */
  lemma WrappedBuffer(b: seq<char>, w: nat, p: seq<char>, k: nat)
    requires w <= |b| && k == |b| - w < |p| <= |b|
    ensures Written(b, p[..k], w) == b[..w] + p[..k]
    ensures Written(Written(b, p[..k], w), p[k..], 0) == p[k..] + (b[|p| - k..w] + p[..k])
  {
    assert Written(b, p[..k], w) == b[..w] + p[..k];
    assert b[..w][|p| - k..] == b[|p| - k..w];
    DropFront(b[..w], p[..k], |p| - k);
  }

  lemma LastTail(x: seq<char>, y: seq<char>)
    ensures Last(x + y, |y|) == y
  {
  }

  /** The ring after the wrap: what is kept of the old characters, then the portion. */
  lemma NewRing(b: seq<char>, w: nat, p: seq<char>, k: nat, e: nat)
    requires w <= |b| && k == |b| - w < |p| <= |b| && e == |p| - k
    ensures e <= w && Ring(p[k..] + (b[e..w] + p[..k]), e, true) == b[e..w] + p
  {
    var kept := b[e..w] + p[..k];
    assert (p[k..] + kept)[e..] == kept && (p[k..] + kept)[..e] == p[k..];
    assert b[e..w] + p[..k] + p[k..] == b[e..w] + (p[..k] + p[k..]);
    assert p[..k] + p[k..] == p;
  }

  /** The characters before the wrap, cut where the new ring starts. */
  lemma OldRing(b: seq<char>, w: nat, isWrapped: bool, p: seq<char>, e: nat)
    requires e <= w <= |b|
    ensures var before := if isWrapped then b[w..] + b[..e] else b[..e];
            Ring(b, w, isWrapped) + p == before + (b[e..w] + p)
  {
    assert b[..w] == b[..e] + b[e..w];
  }

  /** A portion that runs over the end of the buffer and goes on at its start. */
  lemma AppendWraps(b: seq<char>, w: nat, isWrapped: bool, p: seq<char>)
    requires w <= |b| && |p| <= |b| < w + |p|
    ensures var k := |b| - w;
            Ring(Written(Written(b, p[..k], w), p[k..], 0), |p| - k, true) == Last(Ring(b, w, isWrapped) + p, |b|)
  {
    var k, e := |b| - w, w + |p| - |b|;
    hide *;
    WrappedBuffer(b, w, p, k);
    NewRing(b, w, p, k, e);
    OldRing(b, w, isWrapped, p, e);
    LastTail(if isWrapped then b[w..] + b[..e] else b[..e], b[e..w] + p);
  }

  class SysLog {
    const buffer: array<char>
    const flatBuffer: array<char>
    var writePtr: nat
    var isWrapped: bool
    ghost var history: seq<char>

    ghost predicate Valid()
      reads this, buffer
    {
      && buffer.Length == SYSLOG_LENGTH && flatBuffer.Length == SYSLOG_LENGTH + 1 && buffer != flatBuffer
      && writePtr <= SYSLOG_LENGTH
      && Ring(buffer[..], writePtr, isWrapped) == Last(history, SYSLOG_LENGTH)
    }

    constructor ()
      ensures Valid() && history == [] && fresh(buffer) && fresh(flatBuffer)
    {
      buffer := new char[SYSLOG_LENGTH](_ => NUL);
      flatBuffer := new char[SYSLOG_LENGTH + 1](_ => NUL);
      writePtr := 0;
      isWrapped := false;
      history := [];
    }

    /** The ring append of kernel_log, for a portion of any length. */
    method Append(portion: seq<char>)
      requires Valid()
      modifies this, buffer
      ensures Valid() && history == old(history) + portion
    {
      hide Ring, Last;
      var clamped := portion;
      if |clamped| > SYSLOG_LENGTH {
        clamped := clamped[|clamped| - SYSLOG_LENGTH..];
      }
      Clamped(portion, clamped);
      Store(clamped);
      HistoryGrows(history, portion, clamped);
      history := history + portion;
    }

    /** The append once the portion is no longer than the ring. */
    method Store(portion: seq<char>)
      requires Valid() && |portion| <= SYSLOG_LENGTH
      modifies this`writePtr, this`isWrapped, buffer
      ensures writePtr <= SYSLOG_LENGTH
      ensures Ring(buffer[..], writePtr, isWrapped) ==
              Last(old(Ring(buffer[..], writePtr, isWrapped)) + portion, SYSLOG_LENGTH)
    {
      hide Ring, Written, Last;
      ghost var b, w, wrapped := buffer[..], writePtr, isWrapped;
      var excess := Max(0, writePtr + |portion| - SYSLOG_LENGTH);
      var firstPortionLength := |portion| - excess;
      MemCopy(portion[..firstPortionLength], buffer, writePtr);
      writePtr := writePtr + firstPortionLength;
      if excess > 0 {
        MemCopy(portion[firstPortionLength..], buffer, 0);
        writePtr := excess;
        isWrapped := true;
        AppendWraps(b, w, wrapped, portion);
      } else {
        assert portion[..firstPortionLength] == portion;
        AppendFits(b, w, wrapped, portion);
      }
    }

    /** flatten_logs: the last characters ever logged, oldest first, with a terminator behind them. */
    method Flatten() returns (length: nat)
      requires Valid()
      modifies flatBuffer
      ensures Valid() && length == |Last(history, SYSLOG_LENGTH)|
      ensures flatBuffer[..length] == Last(history, SYSLOG_LENGTH) && flatBuffer[length] == NUL
      ensures length == if isWrapped then SYSLOG_LENGTH else writePtr
      ensures length == Min(|history|, 2048)
    {
      var destIndex := 0;
      if isWrapped {
        var oldPortionLength := SYSLOG_LENGTH - writePtr;
        MemCopy(buffer[writePtr..], flatBuffer, 0);
        destIndex := destIndex + oldPortionLength;
      }
      MemCopy(buffer[..writePtr], flatBuffer, destIndex);
      destIndex := destIndex + writePtr;
      flatBuffer[destIndex] := NUL;
      return destIndex;
    }
  }
}
