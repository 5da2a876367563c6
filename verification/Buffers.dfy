/** mem_copy, and what a buffer holds after a portion is stored in it. */
module Buffers {
  /** A buffer after p is stored at a position. */
  function Written<T>(buffer: seq<T>, p: seq<T>, at: nat): (r: seq<T>)
    requires at + |p| <= |buffer|
    ensures |r| == |buffer|
  {
    buffer[..at] + p + buffer[at + |p|..]
  }

  lemma WrittenStep<T>(b: seq<T>, p: seq<T>, at: nat, i: nat)
    requires at + |p| <= |b| && i < |p|
    ensures Written(b, p[..i + 1], at) == Written(b, p[..i], at)[at + i := p[i]]
  {
  }

  lemma WrittenParts<T>(b: seq<T>, p: seq<T>, at: nat)
    requires at + |p| <= |b|
    ensures Written(b, p, at)[..at] == b[..at]
    ensures Written(b, p, at)[at..at + |p|] == p
    ensures Written(b, p, at)[..at + |p|] == b[..at] + p
    ensures Written(b, p, at)[at + |p|..] == b[at + |p|..]
  {
  }

  /** mem_copy of a whole portion. */
  method MemCopy<T>(source: seq<T>, dest: array<T>, at: nat)
    requires at + |source| <= dest.Length
    modifies dest
    ensures dest[..] == Written(old(dest[..]), source, at)
  {
    var i := 0;
    assert Written(dest[..], source[..0], at) == dest[..];
    while i < |source|
      invariant 0 <= i <= |source|
      invariant dest[..] == Written(old(dest[..]), source[..i], at)
    {
      WrittenStep(old(dest[..]), source, at, i);
      ghost var before := dest[..];
      dest[at + i] := source[i];
      assert dest[..] == before[at + i := source[i]];
      i := i + 1;
    }
    assert source[..i] == source;
  }

  /** Two portions stored one behind the other are one. */
  lemma WrittenAppend<T>(b: seq<T>, p: seq<T>, q: seq<T>, at: nat)
    requires at + |p| + |q| <= |b|
    ensures Written(Written(b, p, at), q, at + |p|) == Written(b, p + q, at)
  {
  }

  lemma WrittenNone<T>(b: seq<T>, at: nat)
    requires at <= |b|
    ensures Written(b, [], at) == b
  {
  }

  lemma SubSlice<T>(s: seq<T>, a: nat, b: nat, x: nat, y: nat)
    requires a <= b <= |s| && x <= y <= b - a
    ensures s[a..b][x..y] == s[a + x..a + y]
  {
    var t := s[a..b];
    assert |t[x..y]| == |s[a + x..a + y]|;
    forall k | 0 <= k < y - x ensures t[x..y][k] == s[a + x..a + y][k] {
      assert t[x + k] == s[a + x + k];
    }
  }

  lemma ExtendSlice<T>(s: seq<T>, a: nat, b: nat, c: nat)
    requires a <= b <= c <= |s|
    ensures s[a..b] + s[b..c] == s[a..c]
  {
  }
}
