/** What path normalisation means: components, a push and pop machine over them, and the text it leaves. */
module Paths {
  import opened Machine

  const SLASH := '/'

  type Component = seq<char>

  const DOT: Component := "."
  const DOT_DOT: Component := ".."

  function FirstSegment(path: seq<char>): (r: seq<char>)
    ensures r <= path && SLASH !in r
    ensures |r| < |path| ==> path[|r|] == SLASH
    ensures path != [] && path[0] != SLASH ==> r != []
  {
    if path == [] || path[0] == SLASH then [] else [path[0]] + FirstSegment(path[1..])
  }

  /** The segments between slashes; empty ones do not count. */
  function Components(path: seq<char>): seq<Component>
    decreases |path|
  {
    if path == [] then []
    else if path[0] == SLASH then Components(path[1..])
    else [FirstSegment(path)] + Components(path[|FirstSegment(path)|..])
  }

  /** Pushing every component, popping on .. and skipping .; None when it climbs above the root. */
  function RunStack(cs: seq<Component>, stack: seq<Component>): Option<seq<Component>>
    decreases cs
  {
    if cs == [] then Some(stack)
    else if cs[0] == DOT then RunStack(cs[1..], stack)
    else if cs[0] == DOT_DOT then
      if stack == [] then None else RunStack(cs[1..], stack[..|stack| - 1])
    else RunStack(cs[1..], stack + [cs[0]])
  }

  /** The output so far: whether it starts with a slash, its components, whether it ends with a slash. */
  datatype Norm = Norm(absolute: bool, stack: seq<Component>, slash: bool)

  const START := Norm(false, [], false)

  function JoinAll(cs: seq<Component>): seq<char> {
    if cs == [] then [] else if |cs| == 1 then cs[0] else cs[0] + [SLASH] + JoinAll(cs[1..])
  }

  function Text(n: Norm): seq<char> {
    if n.stack == [] then if n.slash then [SLASH] else []
    else (if n.absolute then [SLASH] else []) + JoinAll(n.stack) + (if n.slash then [SLASH] else [])
  }

  function Push(n: Norm, c: Component): Norm {
    if n.stack == [] then Norm(n.slash, [c], false) else Norm(n.absolute, n.stack + [c], false)
  }

  function Pop(n: Norm): Norm {
    if |n.stack| <= 1 then START else Norm(n.absolute, n.stack[..|n.stack| - 1], false)
  }

  function Enter(n: Norm, c: Component): Norm {
    if c == DOT then n else if c == DOT_DOT then Pop(n) else Push(n, c)
  }

  /** The state after the rest of a path is read in state n. */
  function NormFrom(path: seq<char>, n: Norm): Norm
    decreases |path|
  {
    if path == [] then n
    else if path[0] == SLASH then NormFrom(path[1..], n.(slash := true))
    else NormFrom(path[|FirstSegment(path)|..], Enter(n, FirstSegment(path)))
  }

  function Normalized(path: seq<char>): seq<char> {
    Text(NormFrom(path, START))
  }

  predicate Climbs(path: seq<char>) {
    RunStack(Components(path), []).None?
  }

  // ---- the stack machine

  predicate PlainComponent(c: Component) {
    c != [] && SLASH !in c && c != DOT && c != DOT_DOT
  }

  predicate PlainStack(stack: seq<Component>) {
    forall i :: 0 <= i < |stack| ==> PlainComponent(stack[i])
  }

  lemma EnterStack(n: Norm, c: Component)
    ensures c != DOT_DOT || n.stack != [] ==>
              Enter(n, c).stack == if c == DOT then n.stack
                                   else if c == DOT_DOT then n.stack[..|n.stack| - 1] else n.stack + [c]
  {
    assert n.stack == [] ==> [] + [c] == [c];
    assert |n.stack| == 1 ==> n.stack[..0] == [];
  }

  lemma {:induction false} NormRunsStack(path: seq<char>, n: Norm)
    requires PlainStack(n.stack) && RunStack(Components(path), n.stack).Some?
    ensures NormFrom(path, n).stack == RunStack(Components(path), n.stack).value
    ensures PlainStack(NormFrom(path, n).stack)
    decreases |path|
  {
    if path != [] {
      if path[0] == SLASH {
        NormRunsStack(path[1..], n.(slash := true));
      } else {
        var c := FirstSegment(path);
        var cs := Components(path);
        assert cs[0] == c && cs[1..] == Components(path[|c|..]);
        EnterStack(n, c);
        NormRunsStack(path[|c|..], Enter(n, c));
      }
    }
  }

  // ---- reading the output again

  lemma {:induction false} SegmentOf(c: Component, rest: seq<char>)
    requires SLASH !in c && (rest == [] || rest[0] == SLASH)
    ensures FirstSegment(c + rest) == c
  {
    if c == [] {
      assert c + rest == rest;
    } else {
      assert (c + rest)[1..] == c[1..] + rest;
      assert c[0] in c && forall x :: x in c[1..] ==> x in c;
      SegmentOf(c[1..], rest);
    }
  }

  /** Joined plain components are read as themselves. */
  lemma {:induction false} ReadJoined(cs: seq<Component>, tail: seq<char>, n: Norm)
    requires cs != [] && PlainStack(cs) && (tail == [] || tail[0] == SLASH)
    requires n.stack == [] || n.slash
    ensures NormFrom(JoinAll(cs) + tail, n) == NormFrom(tail, Pushed(n, cs))
    ensures Components(JoinAll(cs) + tail) == cs + Components(tail)
    decreases |cs|
  {
    assert PlainComponent(cs[0]);
    if |cs| == 1 {
      ReadOne(cs[0], tail, n);
      PushStep(n, cs);
      JoinOne(cs, tail);
    } else {
      PlainTail(cs);
      NextHasSlash(n, cs[0]);
      ReadJoined(cs[1..], tail, Push(n, cs[0]).(slash := true));
      ReadJoinedStep(cs, tail, n);
    }
  }

  /** The state after cs is pushed in one go. */
  function Pushed(n: Norm, cs: seq<Component>): Norm {
    Norm(if n.stack == [] then n.slash else n.absolute, n.stack + cs, false)
  }

  lemma NextHasSlash(n: Norm, c: Component)
    ensures Push(n, c).(slash := true).slash
  {
  }

  lemma PlainTail(cs: seq<Component>)
    requires cs != [] && PlainStack(cs)
    ensures PlainComponent(cs[0]) && PlainStack(cs[1..])
  {
  }

  lemma JoinOne(cs: seq<Component>, tail: seq<char>)
    requires |cs| == 1
    ensures JoinAll(cs) + tail == cs[0] + tail && [cs[0]] + Components(tail) == cs + Components(tail)
  {
  }

  lemma ReadJoinedStep(cs: seq<Component>, tail: seq<char>, n: Norm)
    requires |cs| > 1 && PlainComponent(cs[0])
    requires var next := Push(n, cs[0]).(slash := true);
             NormFrom(JoinAll(cs[1..]) + tail, next) == NormFrom(tail, Pushed(next, cs[1..]))
    requires Components(JoinAll(cs[1..]) + tail) == cs[1..] + Components(tail)
    ensures NormFrom(JoinAll(cs) + tail, n) == NormFrom(tail, Pushed(n, cs))
    ensures Components(JoinAll(cs) + tail) == cs + Components(tail)
  {
    hide *;
    JoinStep(cs, tail);
    PushStep(n, cs);
    var inner := JoinAll(cs[1..]) + tail;
    ReadOne(cs[0], [SLASH] + inner, n);
    ReadSlash(inner, Push(n, cs[0]));
    assert [cs[0]] + (cs[1..] + Components(tail)) == cs + Components(tail);
  }

  lemma JoinStep(cs: seq<Component>, tail: seq<char>)
    requires |cs| > 1
    ensures JoinAll(cs) + tail == cs[0] + ([SLASH] + (JoinAll(cs[1..]) + tail))
  {
  }

  lemma PushStep(n: Norm, cs: seq<Component>)
    requires cs != []
    ensures Pushed(Push(n, cs[0]).(slash := true), cs[1..]) == Pushed(n, cs)
    ensures |cs| == 1 ==> Push(n, cs[0]) == Pushed(n, cs)
  {
    assert n.stack == [] ==> [cs[0]] + cs[1..] == [] + cs;
    assert (n.stack + [cs[0]]) + cs[1..] == n.stack + cs;
    assert |cs| == 1 ==> [cs[0]] == cs;
  }

  lemma ReadOne(c: Component, rest: seq<char>, n: Norm)
    requires PlainComponent(c) && (rest == [] || rest[0] == SLASH)
    ensures NormFrom(c + rest, n) == NormFrom(rest, Push(n, c))
    ensures Components(c + rest) == [c] + Components(rest)
  {
    SegmentOf(c, rest);
    var path := c + rest;
    assert path[0] == c[0] && c[0] in c && path[|c|..] == rest;
  }

  lemma ReadSlash(rest: seq<char>, n: Norm)
    ensures NormFrom([SLASH] + rest, n) == NormFrom(rest, n.(slash := true))
    ensures Components([SLASH] + rest) == Components(rest)
  {
    assert ([SLASH] + rest)[1..] == rest;
  }

  /** The text of a state reads as its components and normalises to itself. */
  lemma TextIsNormal(n: Norm)
    requires PlainStack(n.stack)
    ensures Components(Text(n)) == n.stack
    ensures Normalized(Text(n)) == Text(n)
  {
    var tail := if n.slash then [SLASH] else [];
    if n.stack == [] {
      ReadTail(n.slash, START);
    } else {
      var m := Norm(false, [], n.absolute);
      var inner := JoinAll(n.stack) + tail;
      ReadJoined(n.stack, tail, m);
      ReadTail(n.slash, Norm(n.absolute, n.stack, false));
      TextParts(n);
      assert [] + n.stack == n.stack && n.stack + [] == n.stack;
      hide NormFrom, Components, Text, JoinAll;
      if n.absolute {
        ReadSlash(inner, START);
      }
    }
  }

  lemma TextParts(n: Norm)
    requires n.stack != []
    ensures var inner := JoinAll(n.stack) + (if n.slash then [SLASH] else []);
            Text(n) == if n.absolute then [SLASH] + inner else inner
  {
    hide JoinAll;
  }

  lemma ReadTail(slash: bool, n: Norm)
    ensures var tail := if slash then [SLASH] else [];
            Components(tail) == [] && NormFrom(tail, n) == if slash then n.(slash := true) else n
  {
    if slash {
      assert [SLASH] == [SLASH] + [];
      ReadSlash([], n);
    }
  }

  /** Normalisation keeps the meaning of a path, leaves no . or .., and changes nothing the second time. */
  lemma NormalizePreserves(path: seq<char>)
    requires !Climbs(path)
    ensures Components(Normalized(path)) == RunStack(Components(path), []).value
    ensures PlainStack(Components(Normalized(path)))
    ensures Normalized(Normalized(path)) == Normalized(path)
  {
    NormRunsStack(path, START);
    TextIsNormal(NormFrom(path, START));
  }

  lemma {:induction false} JoinedSlashes(cs: seq<Component>)
    requires cs != [] && PlainStack(cs)
    ensures var t := JoinAll(cs);
            && t != [] && t[0] != SLASH && t[|t| - 1] != SLASH
            && forall i :: 0 < i < |t| ==> !(t[i - 1] == SLASH && t[i] == SLASH)
    decreases |cs|
  {
    var t := JoinAll(cs);
    assert PlainComponent(cs[0]);
    assert cs[0][0] in cs[0] && cs[0][|cs[0]| - 1] in cs[0];
    if |cs| > 1 {
      JoinedSlashes(cs[1..]);
      var u := JoinAll(cs[1..]);
      forall i | 0 < i < |t| ensures !(t[i - 1] == SLASH && t[i] == SLASH) {
        if i < |cs[0]| {
          assert t[i] == cs[0][i] && cs[0][i] in cs[0];
        } else if i == |cs[0]| {
          assert t[i - 1] == cs[0][i - 1];
        } else {
          assert t[i] == u[i - |cs[0]| - 1];
        }
      }
    } else {
      forall i | 0 < i < |t| ensures t[i] != SLASH {
        assert t[i] in cs[0];
      }
    }
  }

  /** No slash of the output is doubled. */
  lemma NoDoubledSlash(path: seq<char>)
    requires !Climbs(path)
    ensures var t := Normalized(path);
            forall i :: 0 < i < |t| ==> !(t[i - 1] == SLASH && t[i] == SLASH)
  {
    NormRunsStack(path, START);
    var n := NormFrom(path, START);
    if n.stack != [] {
      JoinedSlashes(n.stack);
      var t, u, k := Text(n), JoinAll(n.stack), if n.absolute then 1 else 0;
      forall i | 0 < i < |t| ensures !(t[i - 1] == SLASH && t[i] == SLASH) {
        if k < i < k + |u| {
          assert t[i] == u[i - k] && t[i - 1] == u[i - k - 1];
        }
      }
    }
  }

  // ---- when the output is absolute

  /** The text of n starts with a slash. */
  predicate StartsAbsolute(n: Norm) {
    if n.stack == [] then n.slash else n.absolute
  }

  lemma StartsAbsoluteText(n: Norm)
    requires PlainStack(n.stack)
    ensures StartsAbsolute(n) <==> Text(n) != [] && Text(n)[0] == SLASH
  {
    if n.stack != [] {
      JoinedSlashes(n.stack);
    }
  }

  /** At index i stands a slash, and everything before it cancels out. */
  predicate EmptySlash(path: seq<char>, stack: seq<Component>, i: nat) {
    i < |path| && path[i] == SLASH && RunStack(Components(path[..i]), stack) == Some([])
  }

  lemma EmptySlashBehindSlash(path: seq<char>, stack: seq<Component>, i: nat)
    requires path != [] && path[0] == SLASH
    ensures EmptySlash(path, stack, i) <==> if i == 0 then stack == [] else EmptySlash(path[1..], stack, i - 1)
  {
    if 0 < i < |path| {
      assert path[..i][1..] == path[1..][..i - 1];
    }
  }

  /** One component of a path moves the stack as it moves the state. */
  lemma StackStep(c: Component, cs: seq<Component>, n: Norm)
    requires c != DOT_DOT || n.stack != []
    ensures RunStack([c] + cs, n.stack) == RunStack(cs, Enter(n, c).stack)
  {
    EnterStack(n, c);
    assert ([c] + cs)[1..] == cs;
  }

  lemma ComponentsBehind(path: seq<char>, i: nat)
    requires path != [] && path[0] != SLASH && |FirstSegment(path)| <= i <= |path|
    ensures var c := FirstSegment(path); Components(path[..i]) == [c] + Components(path[|c|..][..i - |c|])
  {
    var c := FirstSegment(path);
    var rest := path[|c|..][..i - |c|];
    assert path[..i] == c + rest && c != [] && c[0] in c;
    SegmentOf(c, rest);
    hide FirstSegment;
    assert (c + rest)[|c|..] == rest && (c + rest)[0] == c[0];
  }

  lemma EmptySlashBehindSegment(path: seq<char>, n: Norm, i: nat)
    requires path != [] && path[0] != SLASH && (FirstSegment(path) == DOT_DOT ==> n.stack != [])
    ensures var c := FirstSegment(path);
            EmptySlash(path, n.stack, i) <==> i >= |c| && EmptySlash(path[|c|..], Enter(n, c).stack, i - |c|)
  {
    var c := FirstSegment(path);
    if i < |c| {
      assert path[i] == c[i] && c[i] in c;
    } else if i < |path| {
      ComponentsBehind(path, i);
      StackStep(c, Components(path[|c|..][..i - |c|]), n);
    }
  }

  ghost predicate HasEmptySlash(path: seq<char>, stack: seq<Component>) {
    exists i: nat :: EmptySlash(path, stack, i)
  }

  lemma HasBehindSlash(path: seq<char>, stack: seq<Component>)
    requires path != [] && path[0] == SLASH
    ensures HasEmptySlash(path, stack) <==> stack == [] || HasEmptySlash(path[1..], stack)
  {
    EmptySlashBehindSlash(path, stack, 0);
    if HasEmptySlash(path, stack) {
      var i: nat :| EmptySlash(path, stack, i);
      EmptySlashBehindSlash(path, stack, i);
    }
    if HasEmptySlash(path[1..], stack) {
      var i: nat :| EmptySlash(path[1..], stack, i);
      EmptySlashBehindSlash(path, stack, i + 1);
    }
  }

  lemma HasBehindSegment(path: seq<char>, n: Norm)
    requires path != [] && path[0] != SLASH && (FirstSegment(path) == DOT_DOT ==> n.stack != [])
    ensures var c := FirstSegment(path);
            HasEmptySlash(path, n.stack) <==> HasEmptySlash(path[|c|..], Enter(n, c).stack)
  {
    var c := FirstSegment(path);
    hide EmptySlash, FirstSegment, Enter, RunStack, Components;
    if HasEmptySlash(path, n.stack) {
      var i: nat :| EmptySlash(path, n.stack, i);
      EmptySlashBehindSegment(path, n, i);
    }
    if HasEmptySlash(path[|c|..], Enter(n, c).stack) {
      var i: nat :| EmptySlash(path[|c|..], Enter(n, c).stack, i);
      EmptySlashBehindSegment(path, n, i + |c|);
    }
  }

  /** From any state: the output is absolute if it was, or if the path meets a slash with nothing on the stack. */
  lemma {:induction false} AbsoluteFrom(path: seq<char>, n: Norm)
    requires RunStack(Components(path), n.stack).Some?
    ensures var f := NormFrom(path, n);
            f.stack != [] || f.slash ==> (StartsAbsolute(f) <==> StartsAbsolute(n) || HasEmptySlash(path, n.stack))
    decreases |path|
  {
    if path == [] {
    } else if path[0] == SLASH {
      AbsoluteFrom(path[1..], n.(slash := true));
      HasBehindSlash(path, n.stack);
    } else {
      AbsoluteSegment(path, n);
    }
  }

  lemma {:induction false} AbsoluteSegment(path: seq<char>, n: Norm)
    requires path != [] && path[0] != SLASH && RunStack(Components(path), n.stack).Some?
    ensures var f := NormFrom(path, n);
            f.stack != [] || f.slash ==> (StartsAbsolute(f) <==> StartsAbsolute(n) || HasEmptySlash(path, n.stack))
    decreases |path|, 0
  {
    var c := FirstSegment(path);
    var rest := path[|c|..];
    assert Components(path) == [c] + Components(rest);
    assert c == DOT_DOT ==> n.stack != [];
    StackStep(c, Components(rest), n);
    AbsoluteFrom(rest, Enter(n, c));
    HasBehindSegment(path, n);
    if c == DOT_DOT && |n.stack| == 1 && rest != [] {
      HasBehindSlash(rest, []);
    }
  }

  /** The output is absolute exactly when some slash of the path has nothing left on the stack before it. */
  lemma AbsoluteOutput(path: seq<char>)
    requires !Climbs(path) && Normalized(path) != []
    ensures Normalized(path)[0] == SLASH <==>
            exists i: nat :: i < |path| && path[i] == SLASH && RunStack(Components(path[..i]), []) == Some([])
  {
    NormRunsStack(path, START);
    AbsoluteFrom(path, START);
    StartsAbsoluteText(NormFrom(path, START));
    if HasEmptySlash(path, []) {
      var i: nat :| EmptySlash(path, [], i);
      assert RunStack(Components(path[..i]), []) == Some([]);
    }
    if i: nat :| i < |path| && path[i] == SLASH && RunStack(Components(path[..i]), []) == Some([]) {
      assert EmptySlash(path, [], i);
    }
  }

  /** An absolute path comes out absolute, or empty. */
  lemma AbsoluteStays(path: seq<char>)
    requires !Climbs(path) && path != [] && path[0] == SLASH
    ensures Normalized(path) == [] || Normalized(path)[0] == SLASH
  {
    if Normalized(path) != [] {
      AbsoluteOutput(path);
      assert Components(path[..0]) == [];
    }
  }

  // ---- climbing

  /** At index i a .. segment starts, and everything before it cancels out. */
  predicate ClimbsAt(path: seq<char>, stack: seq<Component>, i: nat) {
    && i <= |path| && FirstSegment(path[i..]) == DOT_DOT && (i == 0 || path[i - 1] == SLASH)
    && RunStack(Components(path[..i]), stack) == Some([])
  }

  lemma ClimbsBehindSlash(path: seq<char>, stack: seq<Component>, i: nat)
    requires path != [] && path[0] == SLASH
    ensures ClimbsAt(path, stack, i) <==> i > 0 && ClimbsAt(path[1..], stack, i - 1)
  {
    if 0 < i <= |path| {
      assert path[..i][1..] == path[1..][..i - 1] && path[i..] == path[1..][i - 1..];
    }
  }

  lemma ClimbsBehindSegment(path: seq<char>, n: Norm, i: nat)
    requires path != [] && path[0] != SLASH && (FirstSegment(path) == DOT_DOT ==> n.stack != [])
    ensures var c := FirstSegment(path);
            ClimbsAt(path, n.stack, i) <==> i > |c| && ClimbsAt(path[|c|..], Enter(n, c).stack, i - |c|)
  {
    var c := FirstSegment(path);
    if i == 0 {
      assert path[0..] == path && Components(path[..0]) == [];
    } else if i <= |c| {
      assert path[i - 1] == c[i - 1] && c[i - 1] in c;
    } else if i <= |path| {
      assert path[i..] == path[|c|..][i - |c|..] && path[i - 1] == path[|c|..][i - |c| - 1];
      ComponentsBehind(path, i);
      StackStep(c, Components(path[|c|..][..i - |c|]), n);
    }
  }

  lemma ClimbsOnce(path: seq<char>, stack: seq<Component>)
    requires FirstSegment(path) == DOT_DOT && stack == []
    ensures ClimbsAt(path, stack, 0)
  {
    assert path[0..] == path && Components(path[..0]) == [];
  }

  ghost predicate HasClimb(path: seq<char>, stack: seq<Component>) {
    exists i: nat :: ClimbsAt(path, stack, i)
  }

  lemma ClimbBehindSlash(path: seq<char>, stack: seq<Component>)
    requires path != [] && path[0] == SLASH
    ensures HasClimb(path, stack) <==> HasClimb(path[1..], stack)
  {
    if HasClimb(path, stack) {
      var i: nat :| ClimbsAt(path, stack, i);
      ClimbsBehindSlash(path, stack, i);
    }
    if HasClimb(path[1..], stack) {
      var i: nat :| ClimbsAt(path[1..], stack, i);
      ClimbsBehindSlash(path, stack, i + 1);
    }
  }

  lemma ClimbBehindSegment(path: seq<char>, n: Norm)
    requires path != [] && path[0] != SLASH && (FirstSegment(path) == DOT_DOT ==> n.stack != [])
    ensures HasClimb(path, n.stack) <==> HasClimb(path[|FirstSegment(path)|..], Enter(n, FirstSegment(path)).stack)
  {
    hide FirstSegment, Enter, RunStack, Components, ClimbsAt;
    var c := FirstSegment(path);
    var rest, stack := path[|c|..], Enter(n, c).stack;
    NoClimbHere(path, stack);
    if HasClimb(path, n.stack) {
      var i: nat :| ClimbsAt(path, n.stack, i);
      ClimbsBehindSegment(path, n, i);
      assert ClimbsAt(rest, stack, i - |c|);
    }
    if HasClimb(rest, stack) {
      var i: nat :| ClimbsAt(rest, stack, i);
      ClimbsBehindSegment(path, n, i + |c|);
    }
  }

  lemma {:induction false} ClimbsFrom(path: seq<char>, n: Norm)
    ensures RunStack(Components(path), n.stack).None? <==> HasClimb(path, n.stack)
    decreases |path|
  {
    if path == [] {
    } else if path[0] == SLASH {
      ClimbsFrom(path[1..], n.(slash := true));
      ClimbBehindSlash(path, n.stack);
    } else {
      var c := FirstSegment(path);
      var rest := path[|c|..];
      assert Components(path) == [c] + Components(rest);
      if c == DOT_DOT && n.stack == [] {
        ClimbsOnce(path, n.stack);
      } else {
        StackStep(c, Components(rest), n);
        ClimbsFrom(rest, Enter(n, c));
        hide *;
        ClimbBehindSegment(path, n);
      }
    }
  }

  lemma NoClimbHere(path: seq<char>, stack: seq<Component>)
    requires path != [] && path[0] != SLASH
    ensures !ClimbsAt(path[|FirstSegment(path)|..], stack, 0)
  {
    var rest := path[|FirstSegment(path)|..];
    assert rest[0..] == rest && FirstSegment(rest) == [];
  }

  /** A path climbs exactly when some .. of it has nothing left on the stack before it. */
  lemma ClimbsIff(path: seq<char>)
    ensures Climbs(path) <==> exists i: nat :: ClimbsAt(path, [], i)
  {
    ClimbsFrom(path, START);
    assert HasClimb(path, []) <==> exists i: nat :: ClimbsAt(path, [], i);
  }

  lemma {:induction false} SlashRemembered(path: seq<char>, n: Norm)
    requires path != [] && path[|path| - 1] == SLASH
    ensures NormFrom(path, n).slash
    decreases |path|
  {
    if path[0] == SLASH {
      if |path| > 1 {
        SlashRemembered(path[1..], n.(slash := true));
      }
    } else {
      var c := FirstSegment(path);
      assert path[|path| - 1] in path;
      assert |c| == |path| ==> c == path;
      SlashRemembered(path[|c|..], Enter(n, c));
    }
  }

  // ---- when the output is empty

  /** Where the last segment of a path starts. */
  function LastStart(path: seq<char>): (k: nat)
    ensures k <= |path| && SLASH !in path[k..] && (k > 0 ==> path[k - 1] == SLASH)
  {
    if path == [] || path[|path| - 1] == SLASH then |path|
    else
      var k := LastStart(path[..|path| - 1]);
      assert path[k..] == path[..|path| - 1][k..] + [path[|path| - 1]];
      k
  }

  /** The last segment is entered last. */
  lemma {:induction false} NormLast(head: seq<char>, c: Component, n: Norm)
    requires c != [] && SLASH !in c && (head != [] ==> head[|head| - 1] == SLASH)
    ensures NormFrom(head + c, n) == Enter(NormFrom(head, n), c)
    decreases |head|
  {
    if head == [] {
      SegmentOf(c, []);
      assert c + [] == c && head + c == c && c[0] in c;
      assert c[|c|..] == [];
    } else if head[0] == SLASH {
      assert (head + c)[1..] == head[1..] + c;
      NormLast(head[1..], c, n.(slash := true));
    } else {
      var d := FirstSegment(head);
      assert head[|head| - 1] in head;
      assert |d| == |head| ==> d == head;
      var rest := head[|d|..];
      SegmentOf(d, rest + c);
      assert head + c == d + (rest + c) && (head + c)[|d|..] == rest + c;
      NormLast(rest, c, Enter(n, d));
    }
  }

  /** The output is empty exactly for the empty path, a single dot, and a path whose last segment is a .. that takes
      away the only component left. */
  lemma EmptyOutput(path: seq<char>)
    requires !Climbs(path)
    ensures Normalized(path) == [] <==>
            || path == "" || path == "."
            || (RunStack(Components(path), []) == Some([]) && path[LastStart(path)..] == DOT_DOT)
  {
    NormRunsStack(path, START);
    TextIsEmpty(NormFrom(path, START));
    hide *;
    LastSlash(path);
    LastPushed(path);
    LastDotsClimb(path);
    NothingPushed();
    var k := LastStart(path);
    assert k == 0 ==> path[k..] == path;
  }

  /** A last segment that is no dots stays on the stack. */
  lemma LastPushed(path: seq<char>)
    ensures path[LastStart(path)..] !in {[], DOT, DOT_DOT} ==> NormFrom(path, START).stack != []
  {
    var k := LastStart(path);
    var head, c := path[..k], path[k..];
    assert path == head + c;
    hide *;
    if c != [] {
      NormLast(head, c, START);
      PushedOne(NormFrom(head, START), c);
    }
  }

  lemma PushedOne(n: Norm, c: Component)
    ensures c !in {DOT, DOT_DOT} ==> Enter(n, c).stack != []
  {
  }

  lemma NothingPushed()
    ensures RunStack(Components(""), []) == Some([]) && RunStack(Components("."), []) == Some([])
    ensures LastStart("") == 0 && LastStart(".") == 0
  {
    SegmentOf(DOT, []);
    assert DOT + [] == DOT && DOT[1..] == [] && DOT[..0] == [];
  }

  lemma TextIsEmpty(n: Norm)
    requires PlainStack(n.stack)
    ensures Text(n) == [] <==> n.stack == [] && !n.slash
  {
    StartsAbsoluteText(n);
    if n.stack != [] {
      JoinedSlashes(n.stack);
    }
  }

  /** The text of a state ends with a slash exactly when the state says so. */
  lemma TextEndsWithSlash(n: Norm)
    requires PlainStack(n.stack) && Text(n) != []
    ensures Text(n)[|Text(n)| - 1] == SLASH <==> n.slash
  {
    if n.stack != [] {
      JoinedSlashes(n.stack);
    }
  }

  /** The output ends with a slash exactly when the path ends with one, or with a dot behind one. */
  lemma TrailingSlash(path: seq<char>)
    requires !Climbs(path) && Normalized(path) != []
    ensures var t, k := Normalized(path), LastStart(path);
            t[|t| - 1] == SLASH <==> k > 0 && (path[k..] == [] || path[k..] == DOT)
  {
    NormRunsStack(path, START);
    TextEndsWithSlash(NormFrom(path, START));
    hide NormFrom, Text, Components, RunStack, Enter;
    LastSlash(path);
  }

  lemma LastSlash(path: seq<char>)
    ensures var k := LastStart(path);
            NormFrom(path, START).slash <==> k > 0 && (path[k..] == [] || path[k..] == DOT)
  {
    var k := LastStart(path);
    var head, c := path[..k], path[k..];
    assert path == head + c;
    hide *;
    NothingRead();
    if head != [] {
      SlashRemembered(head, START);
    }
    if c == [] {
      assert path == head;
    } else {
      NormLast(head, c, START);
      EnterSlash(NormFrom(head, START), c);
    }
  }

  /** Only a dot keeps the slash. */
  lemma EnterSlash(n: Norm, c: Component)
    ensures Enter(n, c).slash <==> c == DOT && n.slash
  {
  }

  lemma NothingRead()
    ensures !NormFrom([], START).slash
  {
  }

  lemma LastDotsClimb(path: seq<char>)
    requires !Climbs(path)
    ensures path != DOT_DOT
  {
    if path == DOT_DOT {
      SegmentOf(DOT_DOT, []);
      assert DOT_DOT + [] == DOT_DOT;
      ClimbsOnce(path, []);
      ClimbsIff(path);
    }
  }

  // ---- a leading ..

  /** What is left of a path without a leading .., which finds nothing in the output to cut. */
  function Rest(path: seq<char>): (r: seq<char>)
    ensures |r| <= |path|
  {
    if FirstSegment(path) == DOT_DOT then path[2..] else path
  }

  /** A leading .. is dropped: the output has the components of the rest. */
  lemma LeadingDotsDropped(path: seq<char>)
    requires !Climbs(Rest(path))
    ensures Normalized(path) == Normalized(Rest(path))
    ensures Components(Normalized(path)) == RunStack(Components(Rest(path)), []).value
  {
    NormalizePreserves(Rest(path));
  }

  // ---- the room a path needs

  /** Every output on the way leaves room for a terminator. */
  predicate FitsFrom(path: seq<char>, n: Norm, max: nat)
    decreases |path|
  {
    |Text(n)| < max &&
    if path == [] then true
    else if path[0] == SLASH then FitsFrom(path[1..], n.(slash := true), max)
    else
      var c := FirstSegment(path);
      (c == DOT_DOT && n.stack == [] && n.slash) || FitsFrom(path[|c|..], Enter(n, c), max)
  }

  predicate Fits(path: seq<char>, max: nat) {
    FitsFrom(path, START, max)
  }
}
