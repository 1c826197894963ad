/** From overlapping matches to instructions that cover the target. */
module Overlap {
  import opened Base
  import opened Instructions
  import opened Matching

  // ---------------------------------------------------------------------
  // The stack of kept matches
  // ---------------------------------------------------------------------

  /** Drops matches from the top that reach into `m` and are shorter. */
  function PopShorter(stack: seq<Match>, m: Match): (r: seq<Match>)
    ensures r <= stack
    ensures r != [] ==> End(r[|r| - 1]) <= m.targetPos || m.length <= r[|r| - 1].length
  {
    if stack != [] && End(stack[|stack| - 1]) > m.targetPos && m.length > stack[|stack| - 1].length
    then PopShorter(stack[..|stack| - 1], m)
    else stack
  }

  /** Puts `m` on top unless something not shorter reaches into it. */
  function Place(stack: seq<Match>, m: Match): seq<Match> {
    var s := PopShorter(stack, m);
    if s == [] || m.targetPos >= End(s[|s| - 1]) || m.length > s[|s| - 1].length then s + [m] else s
  }

  function Resolve(matches: seq<Match>): seq<Match> {
    if matches == [] then [] else Place(Resolve(matches[..|matches| - 1]), matches[|matches| - 1])
  }

  /** Sorted by position and without any overlap. */
  ghost predicate Disjoint(stack: seq<Match>) {
    forall i, j :: 0 <= i < j < |stack| ==> End(stack[i]) <= stack[j].targetPos
  }

  /** Placing a match keeps the stack sorted and brings in nothing else. */
  lemma PlaceDisjoint(stack: seq<Match>, m: Match)
    requires Disjoint(stack)
    ensures Disjoint(Place(stack, m))
    ensures forall x :: x in Place(stack, m) ==> x in stack || x == m
  {
    hide PopShorter;
    var s := PopShorter(stack, m);
    if s != [] && m.targetPos >= End(s[|s| - 1]) {
      forall i | 0 <= i < |s|
        ensures End(s[i]) <= m.targetPos
      {
        if i < |s| - 1 {
          assert End(s[i]) <= s[|s| - 1].targetPos <= End(s[|s| - 1]);
        }
      }
    }
  }

  /** Everything on the stack that reaches into the match is shorter. */
  ghost predicate ReachedByShorter(stack: seq<Match>, m: Match) {
    forall x :: x in stack && End(x) > m.targetPos ==> x.length < m.length
  }

  lemma ReachedByInit(stack: seq<Match>, m: Match)
    requires stack != [] && stack[|stack| - 1].length < m.length
    ensures ReachedByShorter(stack, m) <==> ReachedByShorter(stack[..|stack| - 1], m)
  {
    assert stack == stack[..|stack| - 1] + [stack[|stack| - 1]];
  }

  lemma DisjointInit(stack: seq<Match>)
    requires Disjoint(stack) && stack != []
    ensures Disjoint(stack[..|stack| - 1])
  {
  }

  /** The first element that reaches into a match and is not shorter stops the popping. */
  lemma {:induction false} PopStops(stack: seq<Match>, m: Match)
    requires Disjoint(stack)
    ensures var s := PopShorter(stack, m);
            s == [] || End(s[|s| - 1]) <= m.targetPos <==> ReachedByShorter(stack, m)
    decreases |stack|
  {
    hide Disjoint;
    if stack != [] {
      var n := |stack| - 1;
      if End(stack[n]) > m.targetPos && m.length > stack[n].length {
        hide ReachedByShorter;
        DisjointInit(stack);
        ReachedByInit(stack, m);
        PopStops(stack[..n], m);
      } else if End(stack[n]) <= m.targetPos {
        NoneReaches(stack, m);
      } else {
        assert stack[n] in stack;
      }
    }
  }

  lemma NoneReaches(stack: seq<Match>, m: Match)
    requires Disjoint(stack) && stack != [] && End(stack[|stack| - 1]) <= m.targetPos
    ensures forall x :: x in stack ==> End(x) <= m.targetPos
  {
    forall i | 0 <= i < |stack|
      ensures End(stack[i]) <= m.targetPos
    {
      if i < |stack| - 1 {
        assert End(stack[i]) <= stack[|stack| - 1].targetPos <= End(stack[|stack| - 1]);
      }
    }
  }

  lemma {:induction false} PoppedShorter(stack: seq<Match>, m: Match, x: Match)
    requires x in stack && x !in PopShorter(stack, m)
    ensures End(x) > m.targetPos && x.length < m.length
    decreases |stack|
  {
    var n := |stack| - 1;
    assert stack == stack[..n] + [stack[n]];
    if x in stack[..n] && End(stack[n]) > m.targetPos && m.length > stack[n].length {
      PoppedShorter(stack[..n], m, x);
    }
  }

  /**
    A match is placed exactly if everything on the stack that reaches into it is
    shorter; what it pushes out reached into it and was shorter.
    */
  lemma PlaceExact(stack: seq<Match>, m: Match)
    requires Disjoint(stack) && m !in stack
    ensures m in Place(stack, m) <==> ReachedByShorter(stack, m)
    ensures forall x :: x in stack && x !in Place(stack, m) ==> End(x) > m.targetPos && x.length < m.length
  {
    hide PopShorter, Disjoint, ReachedByShorter;
    PopStops(stack, m);
    var s := PopShorter(stack, m);
    assert m !in s;
    forall x | x in stack && x !in Place(stack, m)
      ensures End(x) > m.targetPos && x.length < m.length
    {
      PoppedShorter(stack, m, x);
    }
  }

  /**
    Whatever the order and overlap of the matches, the stack is sorted and
    without overlap, and every match on it is one of them.
    */
  lemma {:induction false} ResolveDisjoint(matches: seq<Match>)
    ensures Disjoint(Resolve(matches))
    ensures forall x :: x in Resolve(matches) ==> x in matches
  {
    hide Place;
    if matches != [] {
      var n := |matches| - 1;
      hide Disjoint;
      assert matches == matches[..n] + [matches[n]];
      ResolveDisjoint(matches[..n]);
      PlaceDisjoint(Resolve(matches[..n]), matches[n]);
    }
  }

  lemma {:induction false} PopKeeps(stack: seq<Match>, m: Match, kept: Match)
    requires kept in stack && m.length < kept.length
    ensures kept in PopShorter(stack, m)
    decreases |stack|
  {
    var n := |stack| - 1;
    if End(stack[n]) > m.targetPos && m.length > stack[n].length {
      assert stack == stack[..n] + [stack[n]];
      PopKeeps(stack[..n], m, kept);
    }
  }

  lemma LongestPlaced(stack: seq<Match>, m: Match)
    requires forall x :: x in stack ==> x.length < m.length
    ensures m in Place(stack, m)
  {
    hide PopShorter;
    var s := PopShorter(stack, m);
    if s != [] {
      assert s[|s| - 1] in stack;
    }
  }

  /** A match longer than all others is never lost. */
  lemma {:induction false} LongestKept(matches: seq<Match>, k: nat)
    requires k < |matches|
    requires forall i :: 0 <= i < |matches| && i != k ==> matches[i].length < matches[k].length
    ensures matches[k] in Resolve(matches)
    decreases |matches|
  {
    hide PopShorter, Disjoint;
    var n := |matches| - 1;
    if k < n {
      LongestKept(matches[..n], k);
      PopKeeps(Resolve(matches[..n]), matches[n], matches[k]);
    } else {
      ResolveDisjoint(matches[..n]);
      LongestPlaced(Resolve(matches[..n]), matches[n]);
    }
  }

  // ---------------------------------------------------------------------
  // Emission
  // ---------------------------------------------------------------------

  function InstOf(m: Match, sourceLen: nat): (i: Inst)
    ensures i.len == m.length
  {
    if m.addr == RUN_ADDR then Run(m.length)
    else if m.isSource then Copy(m.length, m.addr, 0)
    else Copy(m.length, sourceLen + m.addr, 0)
  }

  function Gap(from: nat, to: nat): seq<Inst> {
    if from < to then [Add(to - from)] else []
  }

  /** Instructions for a stack of matches behind `covered`, with literals in the gaps. */
  function Emit(stack: seq<Match>, sourceLen: nat, n: nat, covered: nat): seq<Inst>
    decreases |stack|
  {
    if stack == [] then Gap(covered, n)
    else
      var m := stack[0];
      if m.targetPos < covered then Emit(stack[1..], sourceLen, n, covered)
      else Gap(covered, m.targetPos) + [InstOf(m, sourceLen)] + Emit(stack[1..], sourceLen, n, End(m))
  }

  ghost predicate Good(source: Bytes, target: Bytes, insts: seq<Inst>, pos: nat) {
    Explains(source, target, insts, pos) && Accepted(|source|, insts) && Positive(insts)
  }

  lemma GenuineFits(source: Bytes, target: Bytes, m: Match)
    requires Genuine(source, target, m)
    ensures Fits(source, target, m.targetPos, InstOf(m, |source|))
    ensures InstOf(m, |source|).Copy? ==> !Crosses(|source|, InstOf(m, |source|).addr, m.length)
  {
    if m.addr != RUN_ADDR {
      if m.isSource {
        assert (source + target)[m.addr..m.addr + m.length] == source[m.addr..m.addr + m.length];
      } else {
        var a := |source| + m.addr;
        assert (source + target)[a..a + m.length] == target[m.addr..m.addr + m.length];
      }
    }
  }

  lemma GoodCons(source: Bytes, target: Bytes, i: Inst, rest: seq<Inst>, pos: nat)
    requires Fits(source, target, pos, i) && i.len > 0
    requires i.Copy? ==> !Crosses(|source|, i.addr, i.len)
    requires Good(source, target, rest, pos + i.len)
    ensures Good(source, target, [i] + rest, pos)
  {
    hide Fits;
    assert ([i] + rest)[1..] == rest;
  }

  lemma GoodGap(source: Bytes, target: Bytes, rest: seq<Inst>, from: nat, to: nat)
    requires from <= to <= |target| && Good(source, target, rest, to)
    ensures Good(source, target, Gap(from, to) + rest, from)
  {
    hide Good;
    if from < to {
      GoodCons(source, target, Add(to - from), rest, from);
    } else {
      assert [] + rest == rest;
    }
  }

  /** Genuine matches without overlap are emitted as instructions that explain the target. */
  lemma {:induction false} EmitGood(source: Bytes, target: Bytes, stack: seq<Match>, covered: nat)
    requires Disjoint(stack) && AllGenuine(source, target, stack)
    requires covered <= |target| && (stack != [] ==> covered <= stack[0].targetPos)
    ensures Good(source, target, Emit(stack, |source|, |target|, covered), covered)
    decreases |stack|
  {
    hide Good, Genuine, InstOf;
    if stack == [] {
      assert Good(source, target, [], |target|) by {
        NothingLeft(source, target);
      }
      GoodGap(source, target, [], covered, |target|);
      assert Gap(covered, |target|) + [] == Gap(covered, |target|);
    } else {
      var m := stack[0];
      var rest := Emit(stack[1..], |source|, |target|, End(m));
      GenuineInside(source, target, m);
      EmitGood(source, target, stack[1..], End(m));
      GenuineFits(source, target, m);
      GoodCons(source, target, InstOf(m, |source|), rest, m.targetPos);
      GoodGap(source, target, [InstOf(m, |source|)] + rest, covered, m.targetPos);
      assert Gap(covered, m.targetPos) + [InstOf(m, |source|)] + rest
          == Gap(covered, m.targetPos) + ([InstOf(m, |source|)] + rest);
    }
  }

  lemma NothingLeft(source: Bytes, target: Bytes)
    ensures Good(source, target, [], |target|)
  {
  }

  lemma GenuineInside(source: Bytes, target: Bytes, m: Match)
    requires Genuine(source, target, m)
    ensures m.length > 0 && End(m) <= |target|
  {
  }

  /** Any list of genuine matches becomes instructions that partition the target and replay to it. */
  lemma ResolveGood(source: Bytes, target: Bytes, matches: seq<Match>)
    requires AllGenuine(source, target, matches)
    ensures Good(source, target, Emit(Resolve(matches), |source|, |target|, 0), 0)
  {
    hide Genuine, Resolve, Emit, Good;
    ResolveDisjoint(matches);
    var stack := Resolve(matches);
    forall i | 0 <= i < |stack|
      ensures Genuine(source, target, stack[i])
    {
      assert stack[i] in matches;
    }
    EmitGood(source, target, stack, 0);
  }

  /** On a resolved stack no match begins before the end of the one below it: nothing is ever skipped. */
  lemma {:induction false} NothingSkipped(matches: seq<Match>, i: nat, sourceLen: nat, n: nat)
    requires i < |Resolve(matches)|
    ensures i == 0 || End(Resolve(matches)[i - 1]) <= Resolve(matches)[i].targetPos
    ensures InstOf(Resolve(matches)[i], sourceLen) in Emit(Resolve(matches), sourceLen, n, 0)
  {
    ResolveDisjoint(matches);
    EmitsAll(Resolve(matches), i, sourceLen, n, 0);
  }

  lemma {:induction false} EmitsAll(stack: seq<Match>, i: nat, sourceLen: nat, n: nat, covered: nat)
    requires Disjoint(stack) && i < |stack| && covered <= stack[0].targetPos
    ensures InstOf(stack[i], sourceLen) in Emit(stack, sourceLen, n, covered)
    decreases |stack|
  {
    if i > 0 {
      EmitsAll(stack[1..], i - 1, sourceLen, n, End(stack[0]));
    }
  }

  // ---------------------------------------------------------------------
  // The loops
  // ---------------------------------------------------------------------

  /** Puts one match on the stack. */
  method Push(stack: seq<Match>, m: Match) returns (sorted: seq<Match>)
    ensures sorted == Place(stack, m)
  {
    sorted := stack;
    while sorted != [] && End(sorted[|sorted| - 1]) > m.targetPos && m.length > sorted[|sorted| - 1].length
      invariant PopShorter(sorted, m) == PopShorter(stack, m)
      decreases |sorted|
    {
      sorted := sorted[..|sorted| - 1];
    }
    if sorted == [] || m.targetPos >= End(sorted[|sorted| - 1]) || m.length > sorted[|sorted| - 1].length {
      sorted := sorted + [m];
    }
  }

  method BuildStack(matches: seq<Match>) returns (sorted: seq<Match>)
    ensures sorted == Resolve(matches)
  {
    hide Place;
    sorted := [];
    for k := 0 to |matches|
      invariant sorted == Resolve(matches[..k])
    {
      assert matches[..k + 1][..k] == matches[..k];
      sorted := Push(sorted, matches[k]);
    }
    assert matches[..|matches|] == matches;
  }

  /** One match, with the literals in front of it. */
  method EmitMatch(instructions: seq<Inst>, m: Match, sourceLen: nat, coveredTo: nat) returns (r: seq<Inst>)
    ensures r == instructions + (Gap(coveredTo, m.targetPos) + [InstOf(m, sourceLen)])
  {
    r := instructions;
    if m.targetPos > coveredTo {
      r := r + [Add(m.targetPos - coveredTo)];
    }
    if m.addr == RUN_ADDR {
      r := r + [Run(m.length)];
    } else if m.isSource {
      r := r + [Copy(m.length, m.addr, 0)];
    } else {
      r := r + [Copy(m.length, sourceLen + m.addr, 0)];
    }
  }

  /** Resolves overlaps and fills the gaps. */
  method MatchesToInstructions(target: Bytes, sourceLen: nat, matches: seq<Match>) returns (instructions: seq<Inst>)
    ensures instructions == Emit(Resolve(matches), sourceLen, |target|, 0)
  {
    hide Resolve, InstOf, Gap;
    var sorted := BuildStack(matches);
    instructions := [];
    var coveredTo: nat := 0;
    ghost var all := Emit(sorted, sourceLen, |target|, 0);
    assert sorted[0..] == sorted;
    for k := 0 to |sorted|
      invariant all == instructions + Emit(sorted[k..], sourceLen, |target|, coveredTo)
    {
      var m := sorted[k];
      assert sorted[k..][1..] == sorted[k + 1..];
      if m.targetPos < coveredTo {
        continue;
      }
      instructions := EmitMatch(instructions, m, sourceLen, coveredTo);
      coveredTo := End(m);
    }
    assert sorted[|sorted|..] == [];
    instructions := EmitTail(instructions, coveredTo, |target|);
  }

  method EmitTail(instructions: seq<Inst>, coveredTo: nat, n: nat) returns (r: seq<Inst>)
    ensures r == instructions + Gap(coveredTo, n)
  {
    r := instructions;
    if coveredTo < n {
      r := r + [Add(n - coveredTo)];
    }
  }
}
