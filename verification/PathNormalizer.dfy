/** normalize_path: the loop over the path and the buffer it writes, against the meaning in Paths. */
module PathNormalizer {
  import opened CStrings
  import opened Machine
  import opened Paths

  /** Walks back to a slash or to index 0. */
  function ScanBack(out: seq<char>, i: int): (r: int)
    requires i < |out|
    ensures r <= i
    decreases i
  {
    if i > 0 && out[i] != SLASH then ScanBack(out, i - 1) else i
  }

  function StepOver(out: seq<char>, i: int): (r: int)
    requires i < |out|
    ensures r <= i
  {
    if i >= 0 && out[i] == SLASH then i - 1 else i
  }

  /** Where the buffer is cut for a .. segment when i is the write position. */
  function PopIndex(out: seq<char>, i: int): int
    requires i < |out|
  {
    var j := ScanBack(out, StepOver(out, i));
    ScanBack(out, StepOver(out, j))
  }

  lemma {:induction false} ScanBackTo(out: seq<char>, i: int, k: int)
    requires 0 <= k <= i < |out| && SLASH !in out[k + 1..i + 1] && (k == 0 || out[k] == SLASH)
    ensures ScanBack(out, i) == k
    decreases i
  {
    if k < i {
      assert out[i] == out[k + 1..i + 1][i - k - 1];
      assert out[k + 1..i] == out[k + 1..i + 1][..i - k - 1];
      ScanBackTo(out, i - 1, k);
    }
  }

  // ---- the text of a state

  lemma TextEnd(n: Norm)
    requires PlainStack(n.stack)
    ensures n.slash <==> Text(n) != [] && Text(n)[|Text(n)| - 1] == SLASH
    ensures !n.slash ==> Text(n.(slash := true)) == Text(n) + [SLASH]
  {
    if n.stack != [] {
      JoinedSlashes(n.stack);
    }
  }

  /** What stands before the last component and its slash. */
  function Before(n: Norm): seq<char>
    requires n.stack != []
  {
    if |n.stack| == 1 then if n.absolute then [SLASH] else [] else Text(Pop(n)) + [SLASH]
  }

  function Last(n: Norm): Component
    requires n.stack != []
  {
    n.stack[|n.stack| - 1]
  }

  lemma {:induction false} JoinLast(cs: seq<Component>)
    requires |cs| > 1
    ensures JoinAll(cs) == JoinAll(cs[..|cs| - 1]) + [SLASH] + cs[|cs| - 1]
    decreases |cs|
  {
    if |cs| > 2 {
      JoinLast(cs[1..]);
      assert cs[1..][..|cs| - 2] == cs[..|cs| - 1][1..];
    }
  }

  lemma Regroup(a: seq<char>, j: seq<char>, c: seq<char>, z: seq<char>)
    ensures a + (j + [SLASH] + c) + z == (a + j + [SLASH]) + c + z
    ensures a + (j + [SLASH] + c) + [] == (a + j + [SLASH]) + c
  {
  }

  function Root(n: Norm): seq<char> {
    if n.absolute then [SLASH] else []
  }

  lemma TextIs(n: Norm)
    requires n.stack != []
    ensures Text(n) == Root(n) + JoinAll(n.stack) + (if n.slash then [SLASH] else [])
    ensures !n.slash ==> Text(n) == Root(n) + JoinAll(n.stack)
    ensures |n.stack| == 1 ==> JoinAll(n.stack) == n.stack[0]
  {
    assert !n.slash ==> Text(n) == Root(n) + JoinAll(n.stack) + [];
  }

  lemma TextSplit(n: Norm)
    requires n.stack != [] && n.slash
    ensures Text(n) == Before(n) + Last(n) + [SLASH]
  {
    TextIs(n);
    if |n.stack| > 1 {
      JoinLast(n.stack);
      TextIs(Pop(n));
      var j := JoinAll(n.stack[..|n.stack| - 1]);
      hide Text, JoinAll;
      Regroup(Root(n), j, Last(n), [SLASH]);
    }
  }

  lemma TextPush(n: Norm, c: Component)
    requires n.stack == [] || n.slash
    ensures Text(Push(n, c)) == Text(n) + c
  {
    TextIs(Push(n, c));
    if n.stack != [] {
      var pushed := n.stack + [c];
      JoinLast(pushed);
      assert pushed[..|n.stack|] == n.stack && pushed[|n.stack|] == c;
      TextIs(n);
      hide Text, JoinAll;
      Regroup(Root(n), JoinAll(n.stack), c, []);
    }
  }

  /** Cutting at the pop index removes exactly the last component. */
  lemma PopCuts(out: seq<char>, n: Norm)
    requires PlainStack(n.stack) && n.stack != [] && n.slash
    requires out == Text(n) + [NUL]
    ensures var k := PopIndex(out, |out| - 1); 0 <= k < |out| && out[..k] == Text(Pop(n))
  {
    TextSplit(n);
    assert PlainComponent(Last(n));
    assert |n.stack| == 1 ==> Text(Pop(n)) == [];
    assert Before(n) == [] || Before(n) == Text(Pop(n)) + [SLASH];
    assert Text(n) + [NUL] == Before(n) + Last(n) + [SLASH, NUL];
    CutParts(out, Before(n), Last(n));
  }

  lemma CutParts(out: seq<char>, a: seq<char>, c: seq<char>)
    requires out == a + c + [SLASH, NUL] && SLASH !in c && c != []
    requires a == [] || a[|a| - 1] == SLASH
    ensures PopIndex(out, |out| - 1) == if a == [] then 0 else |a| - 1
    ensures out[..PopIndex(out, |out| - 1)] == if a == [] then [] else a[..|a| - 1]
  {
    hide ScanBack;
    var top := |out| - 2;
    ScanBackTo(out, |out| - 1, top);
    var k := if a == [] then 0 else |a| - 1;
    assert SLASH !in out[k + 1..top] by {
      forall i | k + 1 <= i < top ensures out[i] != SLASH {
        assert out[i] == c[i - |a|] && c[i - |a|] in c;
      }
    }
    assert a != [] ==> out[k] == a[k];
    ScanBackTo(out, top - 1, k);
  }

  /**
    The first .. that climbs, at index i, cuts before the start of the buffer exactly when something was read before
    it or the buffer happens to start with a slash. buf is the buffer at that time: still untouched for i == 0, else
    the output so far with its terminator.
   */
  lemma FirstClimbCuts(path: seq<char>, i: nat, buf: seq<char>)
    requires ClimbsAt(path, [], i) && buf != []
    requires i > 0 ==> Text(NormFrom(path[..i], START)) + [NUL] <= buf
    ensures var n := if i == 0 then START else NormFrom(path[..i], START);
            |Text(n)| < |buf| && (PopIndex(buf, |Text(n)|) < 0 <==> i > 0 || buf[0] == SLASH)
  {
    if i > 0 {
      var n := NormFrom(path[..i], START);
      NormRunsStack(path[..i], START);
      assert path[..i][i - 1] == SLASH;
      SlashRemembered(path[..i], START);
      assert Text(n) == [SLASH];
      assert buf[0] == buf[..2][0] && buf[1] == buf[..2][1] && buf[..2] == [SLASH, NUL];
    }
    PopAtStart(buf);
  }

  /** The cut at the very start of an output, and behind a lone slash. */
  lemma PopAtStart(buf: seq<char>)
    requires buf != []
    ensures PopIndex(buf, 0) == if buf[0] == SLASH then -1 else 0
    ensures |buf| > 1 && buf[0] == SLASH && buf[1] == NUL ==> PopIndex(buf, 1) == -1
  {
    if |buf| > 1 && buf[0] == SLASH && buf[1] == NUL {
      assert ScanBack(buf, 1) == 0 && StepOver(buf, 0) == -1;
    }
  }

  /** The path that climbs at once behind its slash. */
  lemma SlashDotDot(buf: seq<char>)
    requires [SLASH, NUL] <= buf
    ensures ClimbsAt("/..", [], 1) && Climbs(Rest("/..")) && PopIndex(buf, 1) < 0
  {
    var p: seq<char> := "/..";
    assert p[1..] == ".." && p[..1] == "/" && p[..1][1..] == [];
    SegmentOf("..", []);
    assert ".." + [] == "..";
    assert Components(p[..1]) == Components([]) == [];
    ClimbsIff(p);
    assert buf[0] == buf[..2][0] && buf[1] == buf[..2][1];
    PopAtStart(buf);
  }

  // ---- the scans over the path

  lemma SegmentIs(s: seq<char>, k: nat)
    requires k <= |s| && SLASH !in s[..k] && (k == |s| || s[k] == SLASH)
    ensures FirstSegment(s) == s[..k]
  {
    SegmentOf(s[..k], s[k..]);
    assert s == s[..k] + s[k..];
  }

  method SegmentEnd(path: seq<char>, pathIdx: nat) returns (i: nat)
    requires pathIdx <= |path| && NUL !in path
    ensures pathIdx <= i <= |path| && (i == |path| || path[i] == SLASH)
    ensures FirstSegment(path[pathIdx..]) == path[pathIdx..i]
  {
    i := pathIdx;
    while At(path, i) != SLASH && At(path, i) != NUL
      invariant pathIdx <= i <= |path| && SLASH !in path[pathIdx..i]
      decreases |path| - i
    {
      i := i + 1;
    }
    assert path[pathIdx..][..i - pathIdx] == path[pathIdx..i];
    SegmentIs(path[pathIdx..], i - pathIdx);
  }

  method ScanDown(outPath: array<char>, start: int) returns (outIdx: int)
    requires start < outPath.Length
    ensures outIdx == ScanBack(outPath[..], start) && outIdx <= start
  {
    outIdx := start;
    while outIdx > 0 && outPath[outIdx] != SLASH
      invariant outIdx <= start && ScanBack(outPath[..], outIdx) == ScanBack(outPath[..], start)
    {
      outIdx := outIdx - 1;
    }
  }

  lemma {:induction false} ScanBackPrefix(out: seq<char>, buf: seq<char>, i: int)
    requires out <= buf && i < |out|
    ensures ScanBack(buf, i) == ScanBack(out, i) <= i
    decreases i
  {
    if i > 0 && out[i] != SLASH {
      ScanBackPrefix(out, buf, i - 1);
    }
  }

  lemma PopIndexPrefix(out: seq<char>, buf: seq<char>, i: int)
    requires out <= buf && i < |out|
    ensures PopIndex(buf, i) == PopIndex(out, i)
  {
    ScanBackPrefix(out, buf, StepOver(out, i));
    ScanBackPrefix(out, buf, StepOver(out, ScanBack(out, StepOver(out, i))));
  }

  /** The two scans of the .. branch. */
  method FindCut(outPath: array<char>, start: nat) returns (cut: int)
    requires start < outPath.Length
    ensures cut == PopIndex(outPath[..], start) <= start
  {
    cut := start;
    if outPath[cut] == SLASH {
      cut := cut - 1;
    }
    cut := ScanDown(outPath, cut);
    if cut >= 0 && outPath[cut] == SLASH {
      cut := cut - 1;
    }
    cut := ScanDown(outPath, cut);
  }

  /** Where the cut lands: behind the last component's predecessor, or at the start, or before it. */
  lemma CutOf(buf: seq<char>, start: nat, n: Norm)
    requires start < |buf| && buf[..start] == Text(n) && PlainStack(n.stack)
    requires n.stack == [] || n.slash
    requires (n.stack == [] && !n.slash) || buf[start] == NUL
    ensures var k := PopIndex(buf, start);
            && k <= start
            && (k < 0 <==> n.stack == [] && (n.slash || buf[0] == SLASH))
            && (k >= 0 ==> buf[..k] == Text(Pop(n)))
  {
    if n.stack == [] {
      assert start == |Text(n)|;
      assert n.slash ==> buf[0] == buf[..start][0] == SLASH;
      PopAtStart(buf);
    } else {
      var out := buf[..start + 1];
      assert out == Text(n) + [NUL];
      PopCuts(out, n);
      PopIndexPrefix(out, buf, start);
      assert buf[..PopIndex(out, start)] == out[..PopIndex(out, start)];
    }
  }

  /** The .. branch; None when it would write before the buffer. */
  method PopSegment(outPath: array<char>, start: nat, ghost n: Norm) returns (outIdx: Option<nat>)
    requires start < outPath.Length && outPath[..start] == Text(n)
    requires PlainStack(n.stack) && (n.stack == [] || n.slash)
    requires (n.stack == [] && !n.slash) || outPath[start] == NUL
    modifies outPath
    ensures outIdx.None? <==> n.stack == [] && (n.slash || old(outPath[0]) == SLASH)
    ensures outIdx.Some? ==> outIdx.value <= start && outPath[outIdx.value] == NUL
    ensures outIdx.Some? ==> outPath[..outIdx.value] == Text(Pop(n))
  {
    CutOf(outPath[..], start, n);
    hide PopIndex, Text;
    var cut := FindCut(outPath, start);
    if cut < 0 {
      return None;
    }
    ghost var kept := outPath[..cut];
    outPath[cut] := NUL;
    assert outPath[..cut] == kept;
    return Some(cut);
  }

  // ---- the loop

  /** The rest of the path still means, in state n, what the whole path means. */
  ghost predicate Ahead(path: seq<char>, pathIdx: nat, n: Norm, max: nat)
    requires pathIdx <= |path|
  {
    && PlainStack(n.stack)
    && NormFrom(path[pathIdx..], n) == NormFrom(path, START)
    && FitsFrom(path[pathIdx..], n, max)
    && if pathIdx == 0 then n == START
       else RunStack(Components(path[pathIdx..]), n.stack).None? <==> Climbs(Rest(path))
  }

  /** The buffer holds the text of n; it is terminated once anything was written. */
  ghost predicate Behind(path: seq<char>, pathIdx: nat, written: seq<char>, next: char, n: Norm) {
    && pathIdx <= |path| && written == Text(n)
    && (next == NUL || Unwritten(path, pathIdx, n))
  }

  predicate Unwritten(path: seq<char>, pathIdx: nat, n: Norm)
    requires pathIdx <= |path|
  {
    n == START && (pathIdx == 0 || path[..pathIdx] == ".")
  }

  lemma WrittenAt(path: seq<char>, pathIdx: nat, n: Norm)
    requires pathIdx <= |path| && (pathIdx > 0 ==> path[pathIdx - 1] == SLASH)
    ensures Unwritten(path, pathIdx, n) ==> pathIdx == 0
  {
    assert pathIdx > 0 ==> path[..pathIdx][pathIdx - 1] == SLASH;
  }

  /** A leading .. that would cut before the buffer. */
  predicate LeadingCut(path: seq<char>, first: char) {
    FirstSegment(path) == DOT_DOT && first == SLASH
  }

  lemma AheadStart(path: seq<char>, max: nat)
    requires Fits(path, max)
    ensures Ahead(path, 0, START, max)
  {
    assert path[0..] == path;
  }

  lemma AheadFits(path: seq<char>, pathIdx: nat, n: Norm, max: nat)
    requires pathIdx <= |path| && Ahead(path, pathIdx, n, max)
    ensures |Text(n)| < max && PlainStack(n.stack)
  {
    hide Text;
  }

  lemma AheadSlash(path: seq<char>, pathIdx: nat, n: Norm, max: nat)
    requires pathIdx < |path| && path[pathIdx] == SLASH && Ahead(path, pathIdx, n, max)
    ensures Ahead(path, pathIdx + 1, n.(slash := true), max)
    ensures pathIdx > 0 && n.slash ==> Ahead(path, pathIdx, n.(slash := true), max)
  {
    hide Text;
    assert path[0..] == path;
    assert path[pathIdx..][1..] == path[pathIdx + 1..];
    assert n.slash ==> n.(slash := true) == n;
  }

  lemma SegmentRead(path: seq<char>, pathIdx: nat, i: nat, n: Norm, max: nat)
    requires pathIdx < i <= |path| && path[pathIdx] != SLASH && FirstSegment(path[pathIdx..]) == path[pathIdx..i]
    ensures var c, rest := path[pathIdx..i], path[pathIdx..];
            && c != [] && SLASH !in c
            && Components(rest) == [c] + Components(path[i..])
            && NormFrom(rest, n) == NormFrom(path[i..], Enter(n, c))
            && (FitsFrom(rest, n, max) ==>
                  (c == DOT_DOT && n.stack == [] && n.slash) || FitsFrom(path[i..], Enter(n, c), max))
  {
    hide Text, Enter;
    assert path[pathIdx..][|path[pathIdx..i]|..] == path[i..];
  }

  lemma RestIs(path: seq<char>)
    ensures FirstSegment(path) != DOT_DOT ==> (Climbs(Rest(path)) <==> RunStack(Components(path), []).None?)
    ensures FirstSegment(path) == DOT_DOT ==>
              2 <= |path| && (Climbs(Rest(path)) <==> RunStack(Components(path[2..]), []).None?)
  {
    hide RunStack, Components, FirstSegment;
  }

  lemma EnterPlain(n: Norm, c: Component)
    requires PlainStack(n.stack) && c != [] && SLASH !in c
    ensures PlainStack(Enter(n, c).stack)
  {
  }

  lemma StackClimbs(cs: seq<Component>)
    requires cs != [] && cs[0] == DOT_DOT
    ensures RunStack(cs, []).None?
  {
  }

  /** A segment is a plain component, a dot, or a .. that pops, is ignored at the start, or climbs. */
  lemma AheadSegment(path: seq<char>, pathIdx: nat, i: nat, n: Norm, max: nat)
    requires pathIdx < i <= |path| && path[pathIdx] != SLASH && Ahead(path, pathIdx, n, max)
    requires FirstSegment(path[pathIdx..]) == path[pathIdx..i]
    requires pathIdx > 0 ==> n.stack == [] ==> n.slash
    ensures var c := path[pathIdx..i];
            && (c != DOT && c != DOT_DOT ==> PlainComponent(c))
            && (if c == DOT_DOT && n.stack == [] && pathIdx > 0 then Climbs(Rest(path))
                else Ahead(path, i, Enter(n, c), max))
  {
    var c := path[pathIdx..i];
    SegmentRead(path, pathIdx, i, n, max);
    RestIs(path);
    EnterPlain(n, c);
    if c != DOT_DOT || n.stack != [] {
      StackStep(c, Components(path[i..]), n);
    } else {
      StackClimbs([c] + Components(path[i..]));
    }
    hide NormFrom, Components, RunStack, FirstSegment, FitsFrom, Text, Climbs, Rest, PlainStack;
    assert path[0..] == path;
  }

  /** The slash written before a segment, once. */
  method LeadSlash(path: seq<char>, start: nat, outPath: array<char>, outStart: nat, maxOutPathLen: nat, ghost n: Norm)
    returns (pathIdx: nat, outIdx: nat, ghost m: Norm)
    requires start < |path| && outStart < maxOutPathLen <= outPath.Length && NUL !in path
    requires Ahead(path, start, n, maxOutPathLen) && Behind(path, start, outPath[..outStart], outPath[outStart], n)
    modifies outPath
    ensures pathIdx == start || (path[start] == SLASH && pathIdx == start + 1)
    ensures m == if path[start] == SLASH then n.(slash := true) else n
    ensures path[start] != SLASH ==> outPath[..] == old(outPath[..])
    ensures start == 0 && path[start] == SLASH ==> pathIdx == 1
    ensures outIdx < maxOutPathLen && Ahead(path, pathIdx, m, maxOutPathLen)
    ensures Behind(path, pathIdx, outPath[..outIdx], outPath[outIdx], m)
  {
    hide *;
    pathIdx, outIdx, m := start, outStart, n;
    if path[start] == SLASH {
      SlashWanted(path, start, outPath[..outStart], outPath[outStart], n, maxOutPathLen);
      m := n.(slash := true);
      if outIdx == 0 || outPath[outIdx - 1] != SLASH {
        outIdx := CopySlash(outPath, outIdx, maxOutPathLen);
        pathIdx := pathIdx + 1;
        BehindSlash(path, pathIdx, outPath[..outIdx], outPath[outIdx], m);
      }
    }
  }

  method CopySlash(outPath: array<char>, outStart: nat, maxOutPathLen: nat) returns (outIdx: nat)
    requires outStart + 1 < maxOutPathLen <= outPath.Length
    modifies outPath
    ensures outIdx == outStart + 1 && outPath[outIdx] == NUL
    ensures outPath[..outIdx] == old(outPath[..outStart]) + [SLASH]
  {
    CStringWhole([SLASH]);
    var k := Strlcpy([SLASH], outPath, outStart, maxOutPathLen - outStart);
    outIdx := outStart + k;
    assert outPath[..outIdx] == outPath[..outStart] + outPath[outStart..outIdx];
  }

  lemma BehindSlash(path: seq<char>, pathIdx: nat, written: seq<char>, next: char, n: Norm)
    requires pathIdx <= |path| && written == Text(n) && next == NUL
    ensures Behind(path, pathIdx, written, next, n)
  {
  }

  /** At a slash of the path: whether the output has one already, and what is ahead with it. */
  lemma SlashWanted(path: seq<char>, start: nat, written: seq<char>, next: char, n: Norm, max: nat)
    requires start < |path| && path[start] == SLASH
    requires Ahead(path, start, n, max) && Behind(path, start, written, next, n)
    ensures var m := n.(slash := true);
            && Ahead(path, start + 1, m, max)
            && (if written == [] || written[|written| - 1] != SLASH
                then |written| + 1 < max && Text(m) == written + [SLASH]
                else start > 0 && m == n && Ahead(path, start, m, max))
  {
    hide *;
    AheadFits(path, start, n, max);
    WrittenIs(path, start, written, next, n, max);
    TextEnd(n);
    AheadSlash(path, start, n, max);
    AheadFits(path, start + 1, n.(slash := true), max);
    assert n.slash ==> n.(slash := true) == n;
  }

  lemma WrittenIs(path: seq<char>, start: nat, written: seq<char>, next: char, n: Norm, max: nat)
    requires start <= |path| && Ahead(path, start, n, max) && Behind(path, start, written, next, n)
    ensures written == Text(n) && (start == 0 ==> written == [])
  {
    hide NormFrom, Components, RunStack, FitsFrom;
    assert Text(START) == [];
  }

  /** The copy of one segment: bounded to the segment, or to the room left. */
  method CopySegment(path: seq<char>, pathIdx: nat, i: nat, outPath: array<char>, outStart: nat, maxOutPathLen: nat)
    returns (outIdx: nat)
    requires NUL !in path && pathIdx <= i <= |path| && outStart + (i - pathIdx) < maxOutPathLen <= outPath.Length
    modifies outPath
    ensures outIdx == outStart + (i - pathIdx) && outPath[outIdx] == NUL
    ensures outPath[..outIdx] == old(outPath[..outStart]) + path[pathIdx..i]
  {
    CStringWhole(path[pathIdx..]);
    var k := Strlcpy(path[pathIdx..], outPath, outStart, Min(i - pathIdx + 1, maxOutPathLen - outStart));
    assert k == i - pathIdx && path[pathIdx..][..k] == path[pathIdx..i];
    outIdx := outStart + k;
    assert outPath[..outIdx] == outPath[..outStart] + outPath[outStart..outIdx];
  }

  lemma Skipped(path: seq<char>, a: nat, b: nat, written: seq<char>, next: char, n: Norm)
    requires a <= b <= |path| && (a == b || n.slash)
    requires Behind(path, a, written, next, n)
    ensures Behind(path, b, written, next, n)
  {
  }

  method SkipSlashes(path: seq<char>, start: nat, ghost n: Norm, ghost max: nat) returns (pathIdx: nat)
    requires start <= |path| && (At(path, start) == SLASH ==> n.slash && start > 0)
    requires Ahead(path, start, n, max)
    ensures start <= pathIdx <= |path| && At(path, pathIdx) != SLASH
    ensures pathIdx == start || (n.slash && path[pathIdx - 1] == SLASH)
    ensures Ahead(path, pathIdx, n, max)
  {
    hide Ahead, NormFrom, Components, RunStack, FirstSegment, FitsFrom, Text, Climbs, Rest;
    pathIdx := start;
    while At(path, pathIdx) == SLASH
      invariant start <= pathIdx <= |path| && (pathIdx == start || (n.slash && path[pathIdx - 1] == SLASH))
      invariant Ahead(path, pathIdx, n, max)
      decreases |path| - pathIdx
    {
      AheadSlash(path, pathIdx, n, max);
      assert n.(slash := true) == n;
      pathIdx := pathIdx + 1;
    }
  }

  /** What the loop does with the segment between two scans; None when it cuts before the buffer. */
  method EnterSegment(path: seq<char>, pathIdx: nat, i: nat, outPath: array<char>, outStart: nat, maxOutPathLen: nat,
                      ghost n: Norm)
    returns (outIdx: Option<nat>, ghost m: Norm)
    requires pathIdx <= i <= |path| && outStart < maxOutPathLen <= outPath.Length && NUL !in path
    requires pathIdx < |path| ==> path[pathIdx] != SLASH
    requires FirstSegment(path[pathIdx..]) == path[pathIdx..i] && (pathIdx == i ==> i == |path|)
    requires Ahead(path, pathIdx, n, maxOutPathLen)
    requires Behind(path, pathIdx, outPath[..outStart], outPath[outStart], n)
    requires if pathIdx == 0 then n == START && i > 0 else n.slash && path[pathIdx - 1] == SLASH
    modifies outPath
    ensures outIdx.None? <==> path[pathIdx..i] == DOT_DOT && n.stack == [] && (pathIdx > 0 || old(outPath[0]) == SLASH)
    ensures outIdx.None? && pathIdx > 0 ==> Climbs(Rest(path))
    ensures outIdx.Some? ==> outIdx.value < maxOutPathLen && Ahead(path, i, m, maxOutPathLen)
    ensures outIdx.Some? ==> Behind(path, i, outPath[..outIdx.value], outPath[outIdx.value], m)
    ensures path[pathIdx..i] == "." ==> outPath[..] == old(outPath[..])
  {
    var segment := path[pathIdx..i];
    m := if segment == [] then n else Enter(n, segment);
    if segment != [] {
      AheadSegment(path, pathIdx, i, n, maxOutPathLen);
    }
    AheadFits(path, pathIdx, n, maxOutPathLen);
    WrittenAt(path, pathIdx, n);
    hide Ahead, FirstSegment;
    if segment == "." {
      assert pathIdx == 0 ==> path[..i] == segment;
      return Some(outStart), m;
    }
    if segment == ".." {
      outIdx := PopSegment(outPath, outStart, n);
      return;
    }
    if segment != [] {
      TextPush(n, segment);
      AheadFits(path, i, m, maxOutPathLen);
    }
    hide Text;
    var k := CopySegment(path, pathIdx, i, outPath, outStart, maxOutPathLen);
    outIdx := Some(k);
  }

  /**
    The whole function, for a path whose outputs fit. It cuts before the buffer, which is None here, exactly when the
    path climbs behind a leading .., or has one and the buffer happens to start with a slash. Otherwise it leaves the
    normalized text, terminated; for the empty path and a single dot it writes nothing.
   */
  method NormalizePath(path: seq<char>, outPath: array<char>, maxOutPathLen: nat) returns (length: Option<nat>)
    requires NUL !in path && Fits(path, maxOutPathLen) && maxOutPathLen <= outPath.Length
    modifies outPath
    ensures length.None? <==> LeadingCut(path, old(outPath[0])) || Climbs(Rest(path))
    ensures length.Some? ==> length.value < maxOutPathLen && outPath[..length.value] == Normalized(path)
    ensures length.Some? && path != "" && path != "." ==> outPath[length.value] == NUL
    ensures path == "" || path == "." ==> outPath[..] == old(outPath[..])
  {
    var outIdx: nat, pathIdx: nat := 0, 0;
    ghost var n := START;
    AheadStart(path, maxOutPathLen);
    AheadFits(path, 0, START, maxOutPathLen);
    assert Text(START) == [] && outPath[..0] == [];
    LeadingIs(path);
    hide Text, Normalized, Ahead, Climbs, Rest, FirstSegment;
    while At(path, pathIdx) != NUL
      invariant outIdx < maxOutPathLen && pathIdx <= |path| && Ahead(path, pathIdx, n, maxOutPathLen)
      invariant Behind(path, pathIdx, outPath[..outIdx], outPath[outIdx], n)
      invariant pathIdx == 0 ==> n == START && outPath[..] == old(outPath[..])
      invariant 0 < pathIdx < |path| ==> path[pathIdx] == SLASH
      invariant pathIdx > 0 ==> !LeadingCut(path, old(outPath[0]))
      invariant path == "." ==> outPath[..] == old(outPath[..])
      decreases |path| - pathIdx
    {
      ghost var first := pathIdx == 0;
      pathIdx, outIdx, n := LeadSlash(path, pathIdx, outPath, outIdx, maxOutPathLen, n);
      ghost var lead := pathIdx;
      pathIdx := SkipSlashes(path, pathIdx, n, maxOutPathLen);
      Skipped(path, lead, pathIdx, outPath[..outIdx], outPath[outIdx], n);
      var i := SegmentEnd(path, pathIdx);
      assert pathIdx == 0 ==> path[0..] == path;
      var next;
      next, n := EnterSegment(path, pathIdx, i, outPath, outIdx, maxOutPathLen, n);
      if next.None? {
        return None;
      }
      outIdx, pathIdx := next.value, i;
    }
    NormalizedAt(path, n, maxOutPathLen);
    length := Some(outIdx);
  }

  lemma LeadingIs(path: seq<char>)
    ensures path != [] && path[0] == SLASH ==> FirstSegment(path) == []
    ensures path == [] ==> FirstSegment(path) == [] && !Climbs(Rest(path))
  {
  }

  lemma NormalizedAt(path: seq<char>, n: Norm, max: nat)
    requires Ahead(path, |path|, n, max)
    ensures Text(n) == Normalized(path) && !Climbs(Rest(path))
    ensures Unwritten(path, |path|, n) ==> path == "" || path == "."
  {
    assert path[|path|..] == [];
    assert path[..|path|] == path;
  }

  // ---- room

  lemma EnterGrows(n: Norm, c: Component)
    requires n.stack == [] || n.slash
    ensures |Text(Enter(n, c))| <= |Text(n)| + |c|
  {
    if c == DOT_DOT {
      if |n.stack| > 1 {
        TextSplit(n);
      }
    } else if c != DOT {
      TextPush(n, c);
    }
  }

  /** A path shorter than the buffer always fits, with room for what is in the buffer already. */
  lemma {:induction false} ShortFits(path: seq<char>, n: Norm, max: nat)
    requires PlainStack(n.stack) && |Text(n)| + |path| < max
    requires n.stack == [] || n.slash || path == [] || path[0] == SLASH
    ensures FitsFrom(path, n, max)
    decreases |path|
  {
    if path == [] {
    } else if path[0] == SLASH {
      TextEnd(n);
      assert n.slash ==> n.(slash := true) == n;
      ShortFits(path[1..], n.(slash := true), max);
    } else {
      var c := FirstSegment(path);
      EnterGrows(n, c);
      EnterPlain(n, c);
      ShortFits(path[|c|..], Enter(n, c), max);
    }
  }
}
