/** Strings as the kernel's C code sees them: everything before the first NUL. */
module CStrings {
  const NUL := 0 as char

  function CString(s: seq<char>): (r: seq<char>)
    ensures r <= s && NUL !in r
    ensures |r| < |s| ==> s[|r|] == NUL
  {
    if s == [] || s[0] == NUL then [] else [s[0]] + CString(s[1..])
  }

  /** The character a C program reads at position i. */
  function At(s: seq<char>, i: nat): char {
    if i < |s| then s[i] else NUL
  }

  lemma {:induction false} CStringIs(s: seq<char>, k: nat)
    requires k <= |s| && NUL !in s[..k] && At(s, k) == NUL
    ensures CString(s) == s[..k]
  {
    if k > 0 {
      assert s[0] == s[..k][0];
      assert s[1..][..k - 1] == s[..k][1..];
      CStringIs(s[1..], k - 1);
    }
  }

  lemma {:induction false} CStringFrom(s: seq<char>, k: nat)
    requires k <= |CString(s)|
    ensures CString(s[k..]) == CString(s)[k..]
  {
    if k > 0 {
      CStringFrom(s[1..], k - 1);
      assert s[1..][k - 1..] == s[k..];
    }
  }

  lemma {:induction false} CStringAtLeast(s: seq<char>, i: nat)
    requires i <= |s| && NUL !in s[..i]
    ensures i <= |CString(s)|
  {
    if i > 0 {
      assert s[0] == s[..i][0];
      assert s[1..][..i - 1] == s[..i][1..];
      CStringAtLeast(s[1..], i - 1);
    }
  }

  lemma CStringWhole(s: seq<char>)
    requires NUL !in s
    ensures CString(s) == s
  {
    CStringIs(s, |s|);
    assert s[..|s|] == s;
  }

  /** How many characters a bounded copy of s stores before its terminator. */
  function CopyLength(s: seq<char>, maxSize: nat): nat {
    if maxSize == 0 then 0 else if |CString(s)| < maxSize then |CString(s)| else maxSize - 1
  }

  /** The bounded copy: stores a prefix of the string and always a terminator, and touches nothing else. */
  method Strlcpy(source: seq<char>, dest: array<char>, at: nat, maxSize: nat) returns (n: nat)
    requires at + maxSize <= dest.Length
    modifies dest
    ensures n == CopyLength(source, maxSize)
    ensures maxSize > 0 ==> n <= |CString(source)| && n < maxSize && (n == |CString(source)| || n == maxSize - 1)
    ensures maxSize > 0 ==> dest[at..at + n] == CString(source)[..n] && dest[at + n] == NUL
    ensures dest[..at] == old(dest[..at])
    ensures if maxSize == 0 then dest[at..] == old(dest[at..]) else dest[at + n + 1..] == old(dest[at + n + 1..])
  {
    if maxSize < 1 {
      return 0;
    }
    hide CString;
    var i := 0;
    while At(source, i) != NUL && i < maxSize
      invariant i <= maxSize && i <= |CString(source)|
      invariant forall k :: 0 <= k < i ==> dest[at + k] == CString(source)[k]
      invariant forall k :: 0 <= k < dest.Length && !(at <= k < at + i) ==> dest[k] == old(dest[k])
      decreases maxSize - i
    {
      dest[at + i] := source[i];
      i := i + 1;
    }
    if i == maxSize {
      i := i - 1;
    }
    dest[at + i] := NUL;
    n := i;
  }
}
