/** The instruction optimiser: merging neighbours, and splitting runs out of literals. */
module Pipeline {
  import opened Base
  import opened Instructions
  import opened Rolling


  // ---------------------------------------------------------------------
  // Merging
  // ---------------------------------------------------------------------

  /** Two neighbours as one instruction, if they can be merged. */
  function TryCoalesce(a: Inst, b: Inst): (r: Option<Inst>)
    ensures r.Some? ==> r.value.len == a.len + b.len
  {
    match (a, b)
    case (Add(l1), Add(l2)) => Some(Add(l1 + l2))
    case (Copy(l1, a1, m1), Copy(l2, a2, m2)) =>
      if m2 == m1 && a2 == a1 + l1 then Some(Copy(l1 + l2, a1, m1)) else None
    case (Run(l1), Run(l2)) => Some(Run(l1 + l2))
    case _ => None
  }

  function NonZero(insts: seq<Inst>): (r: seq<Inst>)
    ensures forall i :: 0 <= i < |r| ==> r[i].len > 0
  {
    if insts == [] then []
    else if insts[0].len == 0 then NonZero(insts[1..])
    else [insts[0]] + NonZero(insts[1..])
  }

  /** Merges what follows into `cur` as long as that is possible. */
  function CoalesceFrom(cur: Inst, rest: seq<Inst>): (r: seq<Inst>)
    ensures r != []
    decreases |rest|
  {
    if rest == [] then [cur]
    else
      var merged := TryCoalesce(cur, rest[0]);
      if merged.Some? then CoalesceFrom(merged.value, rest[1..])
      else [cur] + CoalesceFrom(rest[0], rest[1..])
  }

  function Coalesce(insts: seq<Inst>): seq<Inst> {
    var nz := NonZero(insts);
    if nz == [] then [] else CoalesceFrom(nz[0], nz[1..])
  }

  /** Two neighbours that could have been one instruction. */
  predicate Joinable(a: Inst, b: Inst) {
    || (a.Add? && b.Add?)
    || (a.Run? && b.Run?)
    || (a.Copy? && b.Copy? && a.mode == b.mode && b.addr == a.addr + a.len)
  }

  /** No neighbours could have been one instruction. */
  ghost predicate Separated(insts: seq<Inst>)
    decreases |insts|
  {
    |insts| >= 2 ==> !Joinable(insts[0], insts[1]) && Separated(insts[1..])
  }

  /** Adjacent RUNs repeat the same byte. */
  ghost predicate RunsAgree(insts: seq<Inst>, target: Bytes, pos: nat)
    requires pos + TotalLen(insts) <= |target|
    requires forall i :: 0 <= i < |insts| ==> insts[i].len > 0
    decreases |insts|
  {
    |insts| >= 2 ==>
      assert TotalLen(insts[1..]) == insts[1].len + TotalLen(insts[1..][1..]);
      && (insts[0].Run? && insts[1].Run? ==> target[pos] == target[pos + insts[0].len])
      && RunsAgree(insts[1..], target, pos + insts[0].len)
  }

  /** No COPY continues its neighbour exactly at the end of the source segment. */
  ghost predicate BoundaryFree(insts: seq<Inst>, segment: nat)
    decreases |insts|
  {
    |insts| >= 2 ==>
      && (TryCoalesce(insts[0], insts[1]).Some? && insts[1].Copy? ==> insts[1].addr != segment)
      && BoundaryFree(insts[1..], segment)
  }

  lemma TotalLenCons(i: Inst, rest: seq<Inst>)
    ensures TotalLen([i] + rest) == i.len + TotalLen(rest)
  {
    assert ([i] + rest)[1..] == rest;
  }

  lemma ExplainsCons(segment: Bytes, target: Bytes, i: Inst, rest: seq<Inst>, pos: nat)
    ensures Explains(segment, target, [i] + rest, pos)
       <==> Fits(segment, target, pos, i) && Explains(segment, target, rest, pos + i.len)
  {
    assert ([i] + rest)[1..] == rest;
  }

  lemma AcceptedCons(segment: nat, i: Inst, rest: seq<Inst>)
    ensures Accepted(segment, [i] + rest)
       <==> (i.Copy? ==> !Crosses(segment, i.addr, i.len)) && Accepted(segment, rest)
  {
    var all := [i] + rest;
    assert forall k :: 0 <= k < |rest| ==> all[k + 1] == rest[k];
    assert all[0] == i;
  }

  /** Empty instructions do not matter. */
  lemma {:induction false} NonZeroExplains(segment: Bytes, target: Bytes, insts: seq<Inst>, pos: nat)
    requires Explains(segment, target, insts, pos)
    ensures Explains(segment, target, NonZero(insts), pos)
    decreases |insts|
  {
    hide Fits;
    if insts != [] {
      NonZeroExplains(segment, target, insts[1..], pos + insts[0].len);
      ExplainsCons(segment, target, insts[0], NonZero(insts[1..]), pos);
    }
  }

  lemma {:induction false} NonZeroAccepted(segment: nat, insts: seq<Inst>)
    requires Accepted(segment, insts)
    ensures Accepted(segment, NonZero(insts))
    decreases |insts|
  {
    if insts != [] {
      assert [insts[0]] + insts[1..] == insts;
      AcceptedCons(segment, insts[0], insts[1..]);
      NonZeroAccepted(segment, insts[1..]);
      AcceptedCons(segment, insts[0], NonZero(insts[1..]));
    }
  }

  /** What merging starts with only grows: same kind, same start, at least as long. */
  lemma {:induction false} CoalesceFirst(cur: Inst, rest: seq<Inst>)
    ensures var first := CoalesceFrom(cur, rest)[0];
            && first.len >= cur.len
            && (cur.Add? ==> first.Add?)
            && (cur.Run? ==> first.Run?)
            && (cur.Copy? ==> first.Copy? && first.addr == cur.addr && first.mode == cur.mode)
    decreases |rest|
  {
    if rest != [] && TryCoalesce(cur, rest[0]).Some? {
      CoalesceFirst(TryCoalesce(cur, rest[0]).value, rest[1..]);
    }
  }

  /** Merging leaves nothing that could still be merged. */
  lemma {:induction false} CoalesceFromSeparated(cur: Inst, rest: seq<Inst>)
    ensures Separated(CoalesceFrom(cur, rest))
    decreases |rest|
  {
    if rest != [] {
      var b, tail := rest[0], rest[1..];
      var merged := TryCoalesce(cur, b);
      if merged.Some? {
        CoalesceFromSeparated(merged.value, tail);
      } else {
        CoalesceFromSeparated(b, tail);
        CoalesceFirst(b, tail);
        assert ([cur] + CoalesceFrom(b, tail))[1..] == CoalesceFrom(b, tail);
      }
    }
  }

  /** In the merged list no two neighbours can be joined, and none is empty. */
  lemma CoalesceSeparated(insts: seq<Inst>)
    ensures Separated(Coalesce(insts))
  {
    hide CoalesceFrom;
    var nz := NonZero(insts);
    if nz != [] {
      CoalesceFromSeparated(nz[0], nz[1..]);
    }
  }

  /** Merging two fitting neighbours gives a fitting instruction, except for RUNs of different bytes. */
  lemma MergedFits(segment: Bytes, target: Bytes, pos: nat, a: Inst, b: Inst)
    requires Fits(segment, target, pos, a) && Fits(segment, target, pos + a.len, b)
    requires a.len > 0 && b.len > 0 && TryCoalesce(a, b).Some?
    ensures Fits(segment, target, pos, TryCoalesce(a, b).value)
       <==> (a.Run? ==> target[pos] == target[pos + a.len])
  {
    if a.Copy? {
      var u, p, q := segment + target, pos + a.len, a.addr + a.len;
      assert target[pos..p + b.len] == target[pos..p] + target[p..p + b.len];
      assert u[a.addr..q + b.len] == u[a.addr..q] + u[q..q + b.len];
    }
  }

  /** After merging, the list explains the target exactly if adjacent RUNs agreed. */
  lemma {:induction false} CoalesceExplains(segment: Bytes, target: Bytes, cur: Inst, rest: seq<Inst>, pos: nat)
    requires Positive([cur] + rest)
    requires Explains(segment, target, [cur] + rest, pos)
    requires pos + TotalLen([cur] + rest) <= |target|
    ensures Explains(segment, target, CoalesceFrom(cur, rest), pos) <==> RunsAgree([cur] + rest, target, pos)
    decreases |rest|
  {
    hide Fits;
    ExplainsCons(segment, target, cur, rest, pos);
    assert ([cur] + rest)[1..] == rest;
    if rest == [] {
      assert [cur] + [] == [cur];
    } else {
      var b, tail := rest[0], rest[1..];
      var next := pos + cur.len;
      assert rest == [b] + tail;
      ExplainsCons(segment, target, b, tail, next);
      assert (([cur] + rest)[1]) == b;
      assert forall i :: 0 <= i < |rest| ==> rest[i] == ([cur] + rest)[i + 1];
      var merged := TryCoalesce(cur, b);
      if merged.None? {
        CoalesceExplains(segment, target, b, tail, next);
        ExplainsCons(segment, target, cur, CoalesceFrom(b, tail), pos);
      } else {
        MergeStep(segment, target, cur, b, tail, pos);
      }
    }
  }

  /** The case where the first two instructions are merged. */
  lemma {:induction false} MergeStep(segment: Bytes, target: Bytes, a: Inst, b: Inst, tail: seq<Inst>, pos: nat)
    requires a.len > 0 && b.len > 0 && Positive(tail) && TryCoalesce(a, b).Some?
    requires Fits(segment, target, pos, a) && Fits(segment, target, pos + a.len, b)
    requires Explains(segment, target, tail, pos + a.len + b.len)
    requires pos + a.len + b.len + TotalLen(tail) <= |target|
    ensures Positive([a] + ([b] + tail)) && TotalLen([a] + ([b] + tail)) == a.len + b.len + TotalLen(tail)
    ensures Explains(segment, target, CoalesceFrom(a, [b] + tail), pos) <==> RunsAgree([a] + ([b] + tail), target, pos)
    decreases |tail| + 1, 0
  {
    hide Fits;
    var m := TryCoalesce(a, b).value;
    assert ([b] + tail)[1..] == tail && ([a] + ([b] + tail))[1..] == [b] + tail;
    TotalLenCons(b, tail);
    TotalLenCons(a, [b] + tail);
    TotalLenCons(m, tail);
    MergedFits(segment, target, pos, a, b);
    assert CoalesceFrom(a, [b] + tail) == CoalesceFrom(m, tail);
    if a.Run? && target[pos] != target[pos + a.len] {
      CoalesceFirst(m, tail);
      WrongRun(segment, target, CoalesceFrom(m, tail), pos, a.len);
    } else {
      ExplainsCons(segment, target, m, tail, pos);
      CoalesceExplains(segment, target, m, tail, pos);
      RunsAgreeMerged(a, b, m, tail, target, pos);
    }
  }

  /** A RUN over two different bytes does not explain the target. */
  lemma WrongRun(segment: Bytes, target: Bytes, insts: seq<Inst>, pos: nat, k: nat)
    requires insts != [] && insts[0].Run? && insts[0].len > k && pos + k < |target|
    requires target[pos] != target[pos + k]
    ensures !Explains(segment, target, insts, pos)
  {
  }

  lemma RunsAgreeMerged(a: Inst, b: Inst, m: Inst, tail: seq<Inst>, target: Bytes, pos: nat)
    requires a.len > 0 && b.len > 0 && Positive(tail) && TryCoalesce(a, b) == Some(m)
    requires pos + a.len + b.len + TotalLen(tail) <= |target|
    requires a.Run? ==> target[pos] == target[pos + a.len]
    ensures TotalLen([a] + ([b] + tail)) == TotalLen([m] + tail) == m.len + TotalLen(tail)
    ensures RunsAgree([a] + ([b] + tail), target, pos) <==> RunsAgree([m] + tail, target, pos)
  {
    TotalLenCons(b, tail);
    TotalLenCons(a, [b] + tail);
    TotalLenCons(m, tail);
    var x, y, z := [a] + ([b] + tail), [b] + tail, [m] + tail;
    assert x[1..] == y && y[1..] == tail && z[1..] == tail;
    assert x[1] == b;
    if tail != [] {
      assert y[1] == tail[0] && z[1] == tail[0];
    }
  }

  /** After merging, the boundary check passes exactly if no merge joined source and target. */
  lemma {:induction false} CoalesceAccepted(segment: nat, cur: Inst, rest: seq<Inst>)
    requires Positive([cur] + rest) && Accepted(segment, [cur] + rest)
    ensures Accepted(segment, CoalesceFrom(cur, rest)) <==> BoundaryFree([cur] + rest, segment)
    decreases |rest|
  {
    AcceptedCons(segment, cur, rest);
    var all := [cur] + rest;
    assert all[1..] == rest && all[0] == cur;
    if rest != [] {
      var b, tail := rest[0], rest[1..];
      assert rest == [b] + tail && all[1] == b;
      AcceptedCons(segment, b, tail);
      assert forall i :: 0 <= i < |rest| ==> rest[i] == all[i + 1];
      var merged := TryCoalesce(cur, b);
      if merged.None? {
        CoalesceAccepted(segment, b, tail);
        AcceptedCons(segment, cur, CoalesceFrom(b, tail));
      } else {
        var m := merged.value;
        var z := [m] + tail;
        assert z[1..] == tail && z[0] == m;
        AcceptedCons(segment, m, tail);
        if cur.Copy? && b.addr == segment {
          CoalesceFirst(m, tail);
          assert Crosses(segment, m.addr, CoalesceFrom(m, tail)[0].len);
        } else {
          assert Positive(z);
          CoalesceAccepted(segment, m, tail);
        }
      }
    }
  }

  // ---------------------------------------------------------------------
  // Splitting runs out of literals
  // ---------------------------------------------------------------------

  /** All bytes from `lo` to `hi` are the same. */
  ghost predicate IsRun(data: Bytes, lo: nat, hi: nat)
    requires lo < hi <= |data|
  {
    forall k :: lo <= k < hi ==> data[k] == data[lo]
  }

  /** MIN_RUN equal bytes begin at `k`. */
  ghost predicate LongRunAt(data: Bytes, k: nat) {
    k + MIN_RUN <= |data| && IsRun(data, k, k + MIN_RUN)
  }

  /** No MIN_RUN neighbouring bytes between `lo` and `hi` are the same. */
  ghost predicate NoLongRun(data: Bytes, lo: nat, hi: nat)
    requires lo <= hi <= |data|
  {
    forall k :: lo <= k && k + MIN_RUN <= hi ==> !LongRunAt(data, k)
  }

  /**
    The canonical division of literals: every RUN is a maximal run of at least
    MIN_RUN bytes, no ADD contains one, and no two ADDs are neighbours.
    */
  ghost predicate Canonical(data: Bytes, insts: seq<Inst>, pos: nat, afterAdd: bool)
    decreases |insts|
  {
    if insts == [] then pos == |data|
    else
      var i := insts[0];
      var end := pos + i.len;
      && i.len > 0 && end <= |data|
      && (match i
          case Run(len) =>
            && len >= MIN_RUN && IsRun(data, pos, end)
            && (pos > 0 ==> data[pos - 1] != data[pos])
            && (end < |data| ==> data[end] != data[pos])
          case Add(_) => !afterAdd && NoLongRun(data, pos, end)
          case Copy(_, _, _) => false)
      && Canonical(data, insts[1..], end, i.Add?)
  }

  /** The length of the run that starts at `i`. */
  function RunAt(data: Bytes, i: nat): (k: nat)
    requires i < |data|
    ensures 0 < k && i + k <= |data|
    ensures IsRun(data, i, i + k)
    ensures i + k < |data| ==> data[i + k] != data[i]
  {
    var k := RunLength(data[i..], data[i]);
    assert forall j :: i <= j < i + k ==> data[j] == data[i..][j - i];
    assert data[i..][0] == data[i];
    k
  }

  /** The next place where a long run starts, or the end. */
  function NextRun(data: Bytes, i: nat): (j: nat)
    requires i <= |data|
    ensures i <= j <= |data|
    decreases |data| - i
  {
    if i == |data| || RunAt(data, i) >= MIN_RUN then i else NextRun(data, i + RunAt(data, i))
  }

  /** Where the segment that starts at `i` ends: behind a long run, or in front of the next one. */
  function SegmentEnd(data: Bytes, i: nat): (j: nat)
    requires i < |data|
    ensures i < j <= |data|
  {
    var k := RunAt(data, i);
    if k >= MIN_RUN then i + k else NextRun(data, i + k)
  }

  function Segment(data: Bytes, i: nat): (s: Inst)
    requires i < |data|
    ensures s.len == SegmentEnd(data, i) - i
  {
    var len := SegmentEnd(data, i) - i;
    if RunAt(data, i) >= MIN_RUN then Run(len) else Add(len)
  }

  function Split(data: Bytes, i: nat): seq<Inst>
    requires i <= |data|
    decreases |data| - i
  {
    if i == |data| then [] else [Segment(data, i)] + Split(data, SegmentEnd(data, i))
  }

  /** Where a new run starts, the byte differs from the one before. */
  ghost predicate Fresh(data: Bytes, i: nat)
    requires i <= |data|
  {
    0 < i < |data| ==> data[i - 1] != data[i]
  }

  lemma FreshAfterRun(data: Bytes, i: nat)
    requires i < |data|
    ensures Fresh(data, i + RunAt(data, i))
  {
    var e := i + RunAt(data, i);
    assert data[e - 1] == data[i];
  }

  lemma {:induction false} NextRunFacts(data: Bytes, lo: nat, i: nat)
    requires lo <= i <= |data| && Fresh(data, i) && NoLongRun(data, lo, i)
    ensures Fresh(data, NextRun(data, i)) && NoLongRun(data, lo, NextRun(data, i))
    ensures NextRun(data, i) < |data| ==> RunAt(data, NextRun(data, i)) >= MIN_RUN
    decreases |data| - i
  {
    hide RunAt;
    if i < |data| && RunAt(data, i) < MIN_RUN {
      FreshAfterRun(data, i);
      ShortRunAppended(data, lo, i);
      NextRunFacts(data, lo, i + RunAt(data, i));
    }
  }

  lemma ShortRunAppended(data: Bytes, lo: nat, i: nat)
    requires lo <= i < |data| && Fresh(data, i) && NoLongRun(data, lo, i) && RunAt(data, i) < MIN_RUN
    ensures NoLongRun(data, lo, i + RunAt(data, i))
  {
    var e := i + RunAt(data, i);
    forall k | lo <= k && k + MIN_RUN <= e
      ensures !LongRunAt(data, k)
    {
      if k + MIN_RUN > i {
        assert !(data[i - 1] == data[k] && data[i] == data[k]);
      }
    }
  }

  lemma ShortHasNoLongRun(data: Bytes, lo: nat, hi: nat)
    requires lo <= hi <= |data| && hi - lo < MIN_RUN
    ensures NoLongRun(data, lo, hi)
  {
  }

  lemma CanonicalNil(data: Bytes, afterAdd: bool)
    ensures Canonical(data, [], |data|, afterAdd)
  {
  }

  lemma CanonicalCons(data: Bytes, i: Inst, rest: seq<Inst>, pos: nat, afterAdd: bool)
    requires i.len > 0 && pos + i.len <= |data| && !i.Copy?
    requires i.Run? ==>
               && i.len >= MIN_RUN && IsRun(data, pos, pos + i.len)
               && (pos > 0 ==> data[pos - 1] != data[pos])
               && (pos + i.len < |data| ==> data[pos + i.len] != data[pos])
    requires i.Add? ==> !afterAdd && NoLongRun(data, pos, pos + i.len)
    requires Canonical(data, rest, pos + i.len, i.Add?)
    ensures Canonical(data, [i] + rest, pos, afterAdd)
  {
    hide IsRun, NoLongRun;
    assert ([i] + rest)[1..] == rest;
  }

  /** Each segment is what a canonical division has at its place. */
  lemma SegmentCanonical(data: Bytes, i: nat, afterAdd: bool, rest: seq<Inst>)
    requires i < |data| && Fresh(data, i)
    requires afterAdd ==> RunAt(data, i) >= MIN_RUN
    requires Canonical(data, rest, SegmentEnd(data, i), Segment(data, i).Add?)
    ensures Canonical(data, [Segment(data, i)] + rest, i, afterAdd)
  {
    hide Canonical, NoLongRun, IsRun, RunAt, NextRun;
    var k := RunAt(data, i);
    if k < MIN_RUN {
      FreshAfterRun(data, i);
      ShortHasNoLongRun(data, i, i + k);
      NextRunFacts(data, i, i + k);
    }
    CanonicalCons(data, Segment(data, i), rest, i, afterAdd);
  }

  lemma SegmentEndFacts(data: Bytes, i: nat)
    requires i < |data| && Fresh(data, i)
    ensures Fresh(data, SegmentEnd(data, i))
    ensures Segment(data, i).Add? && SegmentEnd(data, i) < |data| ==> RunAt(data, SegmentEnd(data, i)) >= MIN_RUN
  {
    hide RunAt, NextRun, NoLongRun, Fresh;
    FreshAfterRun(data, i);
    if RunAt(data, i) < MIN_RUN {
      ShortHasNoLongRun(data, i, i + RunAt(data, i));
      NextRunFacts(data, i, i + RunAt(data, i));
    }
  }

  /** The split is the canonical division. */
  lemma {:induction false} SplitCanonical(data: Bytes, i: nat, afterAdd: bool)
    requires i <= |data| && Fresh(data, i)
    requires afterAdd && i < |data| ==> RunAt(data, i) >= MIN_RUN
    ensures Canonical(data, Split(data, i), i, afterAdd)
    decreases |data| - i
  {
    hide RunAt, Canonical, Fresh, Segment, SegmentEnd;
    if i == |data| {
      CanonicalNil(data, afterAdd);
    } else {
      SegmentEndFacts(data, i);
      SplitCanonical(data, SegmentEnd(data, i), Segment(data, i).Add?);
      SegmentCanonical(data, i, afterAdd, Split(data, SegmentEnd(data, i)));
    }
  }

  /** A long run does not begin under an ADD of a canonical division. */
  lemma RunBehindAdd(data: Bytes, insts: seq<Inst>, pos: nat, start: nat, afterAdd: bool)
    requires Canonical(data, insts, pos, afterAdd) && insts != [] && insts[0].Add?
    requires pos <= start && LongRunAt(data, start)
    ensures pos + insts[0].len <= start
  {
    var end := pos + insts[0].len;
    if end < |data| {
      assert insts[1..] != [] && insts[1..][0].Run?;
      assert data[end - 1] != data[end];
    }
  }

  /** A canonical division starts with a RUN exactly where a long run begins. */
  lemma RunFirst(data: Bytes, insts: seq<Inst>, pos: nat, afterAdd: bool)
    requires Canonical(data, insts, pos, afterAdd) && insts != []
    ensures insts[0].Run? <==> LongRunAt(data, pos)
    ensures !insts[0].Copy?
  {
    if insts[0].Add? && LongRunAt(data, pos) {
      RunBehindAdd(data, insts, pos, pos, afterAdd);
    }
  }

  lemma SameRun(data: Bytes, pos: nat, k: nat, l: nat)
    requires 0 < k && 0 < l && pos + k <= |data| && pos + l <= |data|
    requires IsRun(data, pos, pos + k) && IsRun(data, pos, pos + l)
    requires pos + k < |data| ==> data[pos + k] != data[pos]
    requires pos + l < |data| ==> data[pos + l] != data[pos]
    ensures k == l
  {
  }

  lemma AddNotShorter(data: Bytes, a: seq<Inst>, b: seq<Inst>, pos: nat, afterAdd: bool)
    requires Canonical(data, a, pos, afterAdd) && Canonical(data, b, pos, afterAdd)
    requires a != [] && b != [] && a[0].Add? && b[0].Add?
    ensures b[0].len <= a[0].len
  {
    if a[1..] != [] {
      RunFirst(data, a[1..], pos + a[0].len, true);
      RunBehindAdd(data, b, pos, pos + a[0].len, afterAdd);
    }
  }

  lemma SameFirst(data: Bytes, a: seq<Inst>, b: seq<Inst>, pos: nat, afterAdd: bool)
    requires Canonical(data, a, pos, afterAdd) && Canonical(data, b, pos, afterAdd)
    requires a != [] && b != []
    ensures a[0] == b[0]
  {
    RunFirst(data, a, pos, afterAdd);
    RunFirst(data, b, pos, afterAdd);
    if a[0].Run? {
      SameRun(data, pos, a[0].len, b[0].len);
    } else {
      AddNotShorter(data, a, b, pos, afterAdd);
      AddNotShorter(data, b, a, pos, afterAdd);
    }
  }

  /** There is only one canonical division. */
  lemma {:induction false} CanonicalUnique(data: Bytes, a: seq<Inst>, b: seq<Inst>, pos: nat, afterAdd: bool)
    requires Canonical(data, a, pos, afterAdd) && Canonical(data, b, pos, afterAdd)
    ensures a == b
    decreases |a|
  {
    if a != [] && b != [] {
      SameFirst(data, a, b, pos, afterAdd);
      CanonicalUnique(data, a[1..], b[1..], pos + a[0].len, a[0].Add?);
      assert a == [a[0]] + a[1..] && b == [b[0]] + b[1..];
    }
  }

  // ---------------------------------------------------------------------
  // The whole pipeline
  // ---------------------------------------------------------------------

  function SplitOne(i: Inst, target: Bytes, pos: nat): seq<Inst>
    requires pos + i.len <= |target|
  {
    if i.Add? then Split(target[pos..pos + i.len], 0) else [i]
  }

  function SplitAll(insts: seq<Inst>, target: Bytes, pos: nat): seq<Inst>
    requires pos + TotalLen(insts) <= |target|
    decreases |insts|
  {
    if insts == [] then []
    else SplitOne(insts[0], target, pos) + SplitAll(insts[1..], target, pos + insts[0].len)
  }

  lemma {:induction false} CoalesceTotal(cur: Inst, rest: seq<Inst>)
    requires Positive([cur] + rest)
    ensures TotalLen(CoalesceFrom(cur, rest)) == cur.len + TotalLen(rest)
    ensures Positive(CoalesceFrom(cur, rest))
    decreases |rest|
  {
    assert ([cur] + rest)[0] == cur;
    if rest == [] {
      TotalLenCons(cur, []);
      assert [cur] + [] == [cur];
    } else {
      assert forall i :: 0 <= i < |rest| ==> rest[i] == ([cur] + rest)[i + 1];
      var merged := TryCoalesce(cur, rest[0]);
      if merged.Some? {
        assert Positive([merged.value] + rest[1..]);
        CoalesceTotal(merged.value, rest[1..]);
      } else {
        assert [rest[0]] + rest[1..] == rest;
        CoalesceTotal(rest[0], rest[1..]);
        TotalLenCons(cur, CoalesceFrom(rest[0], rest[1..]));
      }
    }
  }

  lemma {:induction false} NonZeroTotal(insts: seq<Inst>)
    ensures TotalLen(NonZero(insts)) == TotalLen(insts)
    decreases |insts|
  {
    if insts != [] {
      NonZeroTotal(insts[1..]);
      TotalLenCons(insts[0], NonZero(insts[1..]));
    }
  }

  lemma CoalescedTotal(insts: seq<Inst>)
    ensures TotalLen(Coalesce(insts)) == TotalLen(insts) && Positive(Coalesce(insts))
  {
    NonZeroTotal(insts);
    var nz := NonZero(insts);
    if nz != [] {
      assert [nz[0]] + nz[1..] == nz;
      CoalesceTotal(nz[0], nz[1..]);
      TotalLenCons(nz[0], nz[1..]);
    }
  }

  /** What the optimiser returns. */
  function Optimized(insts: seq<Inst>, target: Bytes): seq<Inst>
    requires TotalLen(insts) <= |target|
  {
    CoalescedTotal(insts);
    SplitAll(Coalesce(insts), target, 0)
  }

  /** A canonical division of literals fits wherever the literals are. */
  lemma {:induction false} CanonicalExplains(segment: Bytes, target: Bytes, data: Bytes, at: nat,
                                             insts: seq<Inst>, off: nat, afterAdd: bool, rest: seq<Inst>)
    requires at + |data| <= |target| && target[at..at + |data|] == data
    requires Canonical(data, insts, off, afterAdd)
    ensures Explains(segment, target, insts + rest, at + off) <==> Explains(segment, target, rest, at + |data|)
    decreases |insts|
  {
    hide Fits, IsRun, NoLongRun;
    if insts == [] {
      assert insts + rest == rest;
    } else {
      var i := insts[0];
      assert insts + rest == [i] + (insts[1..] + rest);
      CanonicalExplains(segment, target, data, at, insts[1..], off + i.len, i.Add?, rest);
      ExplainsCons(segment, target, i, insts[1..] + rest, at + off);
      assert Fits(segment, target, at + off, i) by {
        CanonicalFits(segment, target, data, at, insts, off, afterAdd);
      }
    }
  }

  lemma CanonicalFits(segment: Bytes, target: Bytes, data: Bytes, at: nat, insts: seq<Inst>, off: nat, afterAdd: bool)
    requires at + |data| <= |target| && target[at..at + |data|] == data
    requires Canonical(data, insts, off, afterAdd) && insts != []
    ensures Fits(segment, target, at + off, insts[0])
  {
    var i := insts[0];
    if i.Run? {
      forall k | at + off <= k < at + off + i.len
        ensures target[k] == target[at + off]
      {
        assert target[k] == data[k - at] == data[off] == target[at + off];
      }
    }
  }

  lemma {:induction false} CanonicalPlain(data: Bytes, insts: seq<Inst>, off: nat, afterAdd: bool)
    requires Canonical(data, insts, off, afterAdd)
    ensures forall i :: 0 <= i < |insts| ==> !insts[i].Copy? && insts[i].len > 0
    ensures off + TotalLen(insts) == |data|
    decreases |insts|
  {
    if insts != [] {
      CanonicalPlain(data, insts[1..], off + insts[0].len, insts[0].Add?);
      assert forall i :: 0 < i < |insts| ==> insts[i] == insts[1..][i - 1];
    }
  }

  lemma SplitOneExplains(segment: Bytes, target: Bytes, i: Inst, rest: seq<Inst>, pos: nat)
    requires pos + i.len <= |target|
    ensures Explains(segment, target, SplitOne(i, target, pos) + rest, pos)
       <==> Fits(segment, target, pos, i) && Explains(segment, target, rest, pos + i.len)
  {
    hide Split;
    if i.Add? {
      var data := target[pos..pos + i.len];
      SplitCanonical(data, 0, false);
      CanonicalExplains(segment, target, data, pos, Split(data, 0), 0, false, rest);
    } else {
      ExplainsCons(segment, target, i, rest, pos);
    }
  }

  lemma {:induction false} SplitAllExplains(segment: Bytes, target: Bytes, insts: seq<Inst>, pos: nat)
    requires pos + TotalLen(insts) <= |target|
    ensures Explains(segment, target, SplitAll(insts, target, pos), pos) <==> Explains(segment, target, insts, pos)
    decreases |insts|
  {
    hide Fits, SplitOne;
    if insts != [] {
      SplitAllExplains(segment, target, insts[1..], pos + insts[0].len);
      SplitOneExplains(segment, target, insts[0], SplitAll(insts[1..], target, pos + insts[0].len), pos);
    }
  }

  lemma SplitOneShape(segment: nat, i: Inst, target: Bytes, pos: nat, rest: seq<Inst>)
    requires i.len > 0 && pos + i.len <= |target|
    ensures var segs := SplitOne(i, target, pos);
            && Positive(segs) && TotalLen(segs) == i.len
            && (Accepted(segment, segs + rest)
                <==> (i.Copy? ==> !Crosses(segment, i.addr, i.len)) && Accepted(segment, rest))
  {
    hide Split;
    if i.Add? {
      var data := target[pos..pos + i.len];
      SplitCanonical(data, 0, false);
      CanonicalPlain(data, Split(data, 0), 0, false);
      var segs := Split(data, 0);
      assert forall k :: 0 <= k < |rest| ==> rest[k] == (segs + rest)[|segs| + k];
    } else {
      AcceptedCons(segment, i, rest);
      TotalLenCons(i, []);
      assert [i] + [] == [i];
    }
  }

  lemma {:induction false} TotalLenAppend(a: seq<Inst>, b: seq<Inst>)
    ensures TotalLen(a + b) == TotalLen(a) + TotalLen(b)
    decreases |a|
  {
    if a == [] {
      assert a + b == b;
    } else {
      assert (a + b)[1..] == a[1..] + b;
      TotalLenAppend(a[1..], b);
    }
  }

  lemma {:induction false} SplitAllShape(segment: nat, insts: seq<Inst>, target: Bytes, pos: nat)
    requires Positive(insts) && pos + TotalLen(insts) <= |target|
    ensures var r := SplitAll(insts, target, pos);
            && Positive(r) && TotalLen(r) == TotalLen(insts)
            && (Accepted(segment, r) <==> Accepted(segment, insts))
    decreases |insts|
  {
    hide SplitOne;
    if insts != [] {
      var i, tail := insts[0], insts[1..];
      assert insts == [i] + tail;
      SplitAllShape(segment, tail, target, pos + i.len);
      var rest := SplitAll(tail, target, pos + i.len);
      SplitOneShape(segment, i, target, pos, rest);
      AcceptedCons(segment, i, tail);
      TotalLenAppend(SplitOne(i, target, pos), rest);
    }
  }

  /** No ADD is followed by an ADD. */
  ghost predicate AddsApart(insts: seq<Inst>)
    decreases |insts|
  {
    |insts| >= 2 ==> !(insts[0].Add? && insts[1].Add?) && AddsApart(insts[1..])
  }

  lemma {:induction false} SeparatedAddsApart(insts: seq<Inst>)
    requires Separated(insts)
    ensures AddsApart(insts)
    decreases |insts|
  {
    if |insts| >= 2 {
      SeparatedAddsApart(insts[1..]);
    }
  }

  lemma {:induction false} AddsApartAppend(a: seq<Inst>, b: seq<Inst>)
    requires AddsApart(a) && AddsApart(b)
    requires a != [] && b != [] ==> !(a[|a| - 1].Add? && b[0].Add?)
    ensures AddsApart(a + b)
    decreases |a|
  {
    if |a| >= 2 {
      assert (a + b)[1..] == a[1..] + b;
      AddsApartAppend(a[1..], b);
    } else if |a| == 1 {
      assert (a + b)[1..] == b;
    } else {
      assert a + b == b;
    }
  }

  lemma {:induction false} CanonicalAddsApart(data: Bytes, insts: seq<Inst>, pos: nat, afterAdd: bool)
    requires Canonical(data, insts, pos, afterAdd)
    ensures AddsApart(insts)
    decreases |insts|
  {
    hide IsRun, NoLongRun;
    if insts != [] {
      CanonicalAddsApart(data, insts[1..], pos + insts[0].len, insts[0].Add?);
    }
  }

  /** The division of one instruction has no adjacent ADDs; anything but an ADD is left alone. */
  lemma SplitOneApart(i: Inst, target: Bytes, pos: nat)
    requires i.len > 0 && pos + i.len <= |target|
    ensures var segs := SplitOne(i, target, pos);
            && AddsApart(segs) && segs != []
            && (!i.Add? ==> segs == [i])
  {
    hide Split, Canonical;
    if i.Add? {
      var data := target[pos..pos + i.len];
      SplitCanonical(data, 0, false);
      CanonicalAddsApart(data, Split(data, 0), 0, false);
      CanonicalPlain(data, Split(data, 0), 0, false);
    }
  }

  lemma {:induction false} SplitAllApart(insts: seq<Inst>, target: Bytes, pos: nat)
    requires AddsApart(insts) && Positive(insts) && pos + TotalLen(insts) <= |target|
    ensures var r := SplitAll(insts, target, pos);
            && AddsApart(r) && (r == [] <==> insts == [])
            && (insts != [] && !insts[0].Add? ==> r[0] == insts[0])
    decreases |insts|
  {
    hide SplitOne;
    if insts != [] {
      var i, tail := insts[0], insts[1..];
      assert forall k :: 0 <= k < |tail| ==> tail[k] == insts[k + 1];
      SplitAllApart(tail, target, pos + i.len);
      SplitOneApart(i, target, pos);
      AddsApartAppend(SplitOne(i, target, pos), SplitAll(tail, target, pos + i.len));
    }
  }

  /** In the optimised list no ADD is followed by an ADD. */
  lemma OptimizedApart(insts: seq<Inst>, target: Bytes)
    requires TotalLen(insts) <= |target|
    ensures AddsApart(Optimized(insts, target))
  {
    hide SplitAll, AddsApart, Separated;
    CoalescedTotal(insts);
    CoalesceSeparated(insts);
    SeparatedAddsApart(Coalesce(insts));
    CoalescePositive(insts);
    SplitAllApart(Coalesce(insts), target, 0);
  }

  /** No ADD covers eight equal bytes in a row. */
  ghost predicate ShortAdds(insts: seq<Inst>, target: Bytes, pos: nat)
    requires pos + TotalLen(insts) <= |target|
    decreases |insts|
  {
    insts != [] ==>
      && (insts[0].Add? ==> NoLongRun(target, pos, pos + insts[0].len))
      && ShortAdds(insts[1..], target, pos + insts[0].len)
  }

  lemma ShortAddsCons(i: Inst, rest: seq<Inst>, target: Bytes, pos: nat)
    requires pos + i.len + TotalLen(rest) <= |target|
    ensures pos + TotalLen([i] + rest) <= |target|
    ensures ShortAdds([i] + rest, target, pos)
       <==> (i.Add? ==> NoLongRun(target, pos, pos + i.len)) && ShortAdds(rest, target, pos + i.len)
  {
    hide NoLongRun;
    assert ([i] + rest)[1..] == rest;
  }

  lemma {:induction false} CanonicalShortAdds(target: Bytes, data: Bytes, at: nat, insts: seq<Inst>, off: nat,
                                              afterAdd: bool, rest: seq<Inst>)
    requires at + |data| <= |target| && data == target[at..at + |data|]
    requires Canonical(data, insts, off, afterAdd) && off <= |data|
    requires at + |data| + TotalLen(rest) <= |target| && ShortAdds(rest, target, at + |data|)
    ensures at + off + TotalLen(insts + rest) <= |target|
    ensures ShortAdds(insts + rest, target, at + off)
    decreases |insts|
  {
    hide IsRun, NoLongRun, LongRunAt, ShortAdds, TotalLen;
    if insts == [] {
      assert insts + rest == rest;
    } else {
      var i, tail := insts[0], insts[1..] + rest;
      assert insts + rest == [i] + tail;
      CanonicalShortAdds(target, data, at, insts[1..], off + i.len, i.Add?, rest);
      if i.Add? {
        NoLongRunInside(target, data, at, off, off + i.len);
      }
      TotalLenCons(i, tail);
      ShortAddsCons(i, tail, target, at + off);
    }
  }

  lemma NoLongRunInside(target: Bytes, data: Bytes, at: nat, lo: nat, hi: nat)
    requires at + |data| <= |target| && data == target[at..at + |data|] && lo <= hi <= |data|
    requires NoLongRun(data, lo, hi)
    ensures NoLongRun(target, at + lo, at + hi)
  {
    forall k | at + lo <= k && k + MIN_RUN <= at + hi
      ensures !LongRunAt(target, k)
    {
      assert !LongRunAt(data, k - at);
      assert forall j :: k - at <= j < k - at + MIN_RUN ==> data[j] == target[at + j];
    }
  }

  lemma {:induction false} SplitAllShortAdds(insts: seq<Inst>, target: Bytes, pos: nat)
    requires pos + TotalLen(insts) <= |target|
    ensures pos + TotalLen(SplitAll(insts, target, pos)) <= |target|
    ensures ShortAdds(SplitAll(insts, target, pos), target, pos)
    decreases |insts|
  {
    hide Canonical, Split, NoLongRun;
    if insts != [] {
      var i, rest := insts[0], SplitAll(insts[1..], target, pos + insts[0].len);
      SplitAllShortAdds(insts[1..], target, pos + i.len);
      if i.Add? {
        var data := target[pos..pos + i.len];
        SplitCanonical(data, 0, false);
        CanonicalShortAdds(target, data, pos, Split(data, 0), 0, false, rest);
      } else {
        assert ([i] + rest)[1..] == rest;
      }
    }
  }

  /** In the optimised list no ADD covers eight equal bytes in a row. */
  lemma OptimizedShortAdds(insts: seq<Inst>, target: Bytes)
    requires TotalLen(insts) <= |target|
    ensures TotalLen(Optimized(insts, target)) <= |target|
    ensures ShortAdds(Optimized(insts, target), target, 0)
  {
    hide SplitAll, ShortAdds;
    CoalescedTotal(insts);
    SplitAllShortAdds(Coalesce(insts), target, 0);
  }

  lemma {:induction false} CoalesceFromPositive(cur: Inst, rest: seq<Inst>)
    requires Positive([cur] + rest)
    ensures Positive(CoalesceFrom(cur, rest))
    decreases |rest|
  {
    var all := [cur] + rest;
    assert all[0] == cur && forall k :: 0 <= k < |rest| ==> rest[k] == all[k + 1];
    if rest != [] {
      var b, tail := rest[0], rest[1..];
      assert [b] + tail == rest;
      var merged := TryCoalesce(cur, b);
      if merged.Some? {
        CoalesceFromPositive(merged.value, tail);
      } else {
        CoalesceFromPositive(b, tail);
      }
    }
  }

  lemma CoalescePositive(insts: seq<Inst>)
    ensures Positive(Coalesce(insts))
  {
    hide CoalesceFrom;
    var nz := NonZero(insts);
    if nz != [] {
      assert [nz[0]] + nz[1..] == nz;
      CoalesceFromPositive(nz[0], nz[1..]);
    }
  }

  /** The two conditions under which optimising is safe. */
  ghost predicate Mergeable(insts: seq<Inst>, target: Bytes, segment: nat)
    requires TotalLen(insts) <= |target|
  {
    NonZeroTotal(insts);
    RunsAgree(NonZero(insts), target, 0) && BoundaryFree(NonZero(insts), segment)
  }

  /**
    Optimising instructions that explain a target keeps their lengths; the
    result explains the target exactly if adjacent RUNs repeat the same byte, and
    passes the decoder's boundary check exactly if no merged COPY joins source
    and target.
    */
  lemma OptimizeExact(segment: Bytes, target: Bytes, insts: seq<Inst>)
    requires Explains(segment, target, insts, 0) && Accepted(|segment|, insts)
    requires TotalLen(insts) == |target|
    ensures TotalLen(NonZero(insts)) == |target|
    ensures var r := Optimized(insts, target);
            && Positive(r) && TotalLen(r) == |target|
            && (Explains(segment, target, r, 0) <==> RunsAgree(NonZero(insts), target, 0))
            && (Accepted(|segment|, r) <==> BoundaryFree(NonZero(insts), |segment|))
  {
    hide Fits, SplitAll, CoalesceFrom, RunsAgree, BoundaryFree, NonZero, Accepted;
    NonZeroTotal(insts);
    NonZeroExplains(segment, target, insts, 0);
    NonZeroAccepted(|segment|, insts);
    CoalescedTotal(insts);
    SplitAllExplains(segment, target, Coalesce(insts), 0);
    SplitAllShape(|segment|, Coalesce(insts), target, 0);
    var nz := NonZero(insts);
    if nz == [] {
      NothingToMerge(segment, target);
    } else {
      assert [nz[0]] + nz[1..] == nz;
      CoalesceExplains(segment, target, nz[0], nz[1..], 0);
      CoalesceAccepted(|segment|, nz[0], nz[1..]);
    }
  }

  lemma NothingToMerge(segment: Bytes, target: Bytes)
    ensures RunsAgree([], target, 0) && BoundaryFree([], |segment|) && Accepted(|segment|, [])
  {
  }

  // ---------------------------------------------------------------------
  // The loops
  // ---------------------------------------------------------------------

  lemma NonZeroStep(insts: seq<Inst>, k: nat)
    requires k < |insts|
    ensures NonZero(insts[k..]) == (if insts[k].len == 0 then [] else [insts[k]]) + NonZero(insts[k + 1..])
  {
    assert insts[k..][1..] == insts[k + 1..];
  }

  method CoalesceAll(insts: seq<Inst>) returns (coalesced: seq<Inst>)
    ensures coalesced == Coalesce(insts)
  {
    hide TryCoalesce, NonZero;
    coalesced := [];
    assert insts[0..] == insts;
    for k := 0 to |insts|
      invariant coalesced == [] ==> Coalesce(insts) == Coalesce(insts[k..])
      invariant coalesced != [] ==>
                  Coalesce(insts) == coalesced[..|coalesced| - 1]
                                     + CoalesceFrom(coalesced[|coalesced| - 1], NonZero(insts[k..]))
    {
      NonZeroStep(insts, k);
      var inst := insts[k];
      ghost var rest := NonZero(insts[k + 1..]);
      if inst.len == 0 {
        assert [] + rest == rest;
        continue;
      }
      assert ([inst] + rest)[1..] == rest;
      if coalesced == [] {
        coalesced := [inst];
        assert coalesced[..0] == [];
      } else {
        var last := coalesced[|coalesced| - 1];
        var merged := TryCoalesce(last, inst);
        if merged.Some? {
          coalesced := coalesced[..|coalesced| - 1] + [merged.value];
        } else {
          assert coalesced == coalesced[..|coalesced| - 1] + [last];
          coalesced := coalesced + [inst];
        }
      }
    }
    NoneLeft(insts);
    if coalesced != [] {
      assert coalesced == coalesced[..|coalesced| - 1] + [coalesced[|coalesced| - 1]];
    }
  }

  lemma NoneLeft(insts: seq<Inst>)
    ensures NonZero(insts[|insts|..]) == []
  {
  }

  lemma {:induction false} NextRunShort(data: Bytes, i: nat)
    requires i <= |data| && |data| - i < MIN_RUN
    ensures NextRun(data, i) == |data|
    decreases |data| - i
  {
    if i < |data| {
      NextRunShort(data, i + RunAt(data, i));
    }
  }

  lemma ShortTail(data: Bytes, i: nat)
    requires i < |data| && |data| - i < MIN_RUN
    ensures Split(data, i) == [Add(|data| - i)]
  {
    hide RunAt, NextRun;
    NextRunShort(data, i + RunAt(data, i));
    assert SegmentEnd(data, i) == |data|;
    assert [Segment(data, i)] + [] == [Segment(data, i)];
  }

  method MeasureRun(data: Bytes, i: nat) returns (k: nat)
    requires i < |data|
    ensures k == RunAt(data, i)
  {
    k := FindRunLength(data[i..], data[i], |data| - i);
  }

  /** The end of the segment that starts at `i`, with the length of its first run. */
  method MeasureSegment(data: Bytes, i: nat, runLen: nat) returns (end: nat)
    requires i < |data| && runLen == RunAt(data, i)
    ensures end == SegmentEnd(data, i)
  {
    hide RunAt;
    end := i + runLen;
    if runLen >= MIN_RUN {
      return;
    }
    while end < |data|
      invariant end <= |data| && NextRun(data, end) == SegmentEnd(data, i)
      decreases |data| - end
    {
      var rl := MeasureRun(data, end);
      if rl >= MIN_RUN {
        return;
      }
      end := end + rl;
    }
  }

  /** Splits the data of one ADD into literals and runs. */
  method SplitAddWithRuns(data: Bytes, out: seq<Inst>) returns (result: seq<Inst>)
    ensures result == out + Split(data, 0)
  {
    hide RunAt, SegmentEnd;
    result := out;
    var i := 0;
    while i < |data|
      invariant 0 <= i <= |data|
      invariant result + Split(data, i) == out + Split(data, 0)
      decreases |data| - i
    {
      if |data| - i < MIN_RUN {
        ShortTail(data, i);
        result := result + [Add(|data| - i)];
        return;
      }
      ghost var rest := Split(data, SegmentEnd(data, i));
      assert result + ([Segment(data, i)] + rest) == (result + [Segment(data, i)]) + rest;
      var runLen := MeasureRun(data, i);
      var end := MeasureSegment(data, i, runLen);
      if runLen >= MIN_RUN {
        result := result + [Run(end - i)];
      } else {
        result := result + [Add(end - i)];
      }
      i := end;
    }
    assert result + [] == result;
  }

  lemma SplitStep(insts: seq<Inst>, target: Bytes, k: nat, pos: nat)
    requires k < |insts| && pos + TotalLen(insts[k..]) <= |target|
    ensures TotalLen(insts[k..]) == insts[k].len + TotalLen(insts[k + 1..])
    ensures SplitAll(insts[k..], target, pos)
         == SplitOne(insts[k], target, pos) + SplitAll(insts[k + 1..], target, pos + insts[k].len)
  {
    hide SplitOne;
    assert insts[k..][1..] == insts[k + 1..];
  }

  method SplitAddRuns(insts: seq<Inst>, target: Bytes) returns (result: seq<Inst>)
    requires TotalLen(insts) <= |target|
    ensures result == SplitAll(insts, target, 0)
  {
    hide Split, SplitAll, TotalLen;
    result := [];
    var targetPos := 0;
    assert insts[0..] == insts;
    assert [] + SplitAll(insts, target, 0) == SplitAll(insts, target, 0);
    for k := 0 to |insts|
      invariant 0 <= targetPos && targetPos + TotalLen(insts[k..]) <= |target|
      invariant result + SplitAll(insts[k..], target, targetPos) == SplitAll(insts, target, 0)
    {
      var inst := insts[k];
      SplitStep(insts, target, k, targetPos);
      ghost var one, rest := SplitOne(inst, target, targetPos), SplitAll(insts[k + 1..], target, targetPos + inst.len);
      assert result + (one + rest) == (result + one) + rest;
      if inst.Add? {
        result := SplitAddWithRuns(target[targetPos..targetPos + inst.len], result);
      } else {
        result := result + [inst];
      }
      targetPos := targetPos + inst.len;
    }
    NothingToSplit(target, targetPos);
    assert insts[|insts|..] == [];
    assert result + [] == result;
  }

  lemma NothingToSplit(target: Bytes, pos: nat)
    requires pos <= |target|
    ensures TotalLen([]) == 0 && SplitAll([], target, pos) == []
  {
  }

  /** Merges, then splits. */
  method Optimize(insts: seq<Inst>, target: Bytes) returns (result: seq<Inst>)
    requires TotalLen(insts) <= |target|
    ensures result == Optimized(insts, target)
  {
    CoalescedTotal(insts);
    var coalesced := CoalesceAll(insts);
    result := SplitAddRuns(coalesced, target);
  }

  // ---------------------------------------------------------------------
  // Where optimising goes wrong
  // ---------------------------------------------------------------------

  lemma PairLists(a: Inst, b: Inst)
    requires a.len > 0 && b.len > 0
    ensures TotalLen([a, b]) == a.len + b.len && NonZero([a, b]) == [a, b]
  {
    assert [a, b] == [a] + ([b] + []);
    TotalLenCons(b, []);
    TotalLenCons(a, [b]);
    assert [a, b][1..] == [b] && [b][1..] == [];
    assert NonZero([b]) == [b] + NonZero([]);
  }

  lemma PairOptimized(a: Inst, b: Inst, target: Bytes)
    requires a.len > 0 && b.len > 0 && a.len + b.len <= |target|
    requires TryCoalesce(a, b).Some? && !a.Add?
    ensures TotalLen([a, b]) == a.len + b.len
    ensures Optimized([a, b], target) == [TryCoalesce(a, b).value]
  {
    PairLists(a, b);
    CoalescedTotal([a, b]);
    var m := TryCoalesce(a, b).value;
    assert [a, b][1..] == [b] && [b][1..] == [];
    assert Coalesce([a, b]) == CoalesceFrom(m, []) == [m];
    assert [m][1..] == [];
    assert SplitAll([m], target, 0) == [m] + [];
  }

  lemma PairExplains(segment: Bytes, target: Bytes, a: Inst, b: Inst)
    requires Fits(segment, target, 0, a) && Fits(segment, target, a.len, b) && a.len + b.len == |target|
    ensures Explains(segment, target, [a, b], 0)
  {
    hide Fits;
    assert [a, b] == [a] + ([b] + []);
    ExplainsCons(segment, target, b, [], a.len);
    ExplainsCons(segment, target, a, [b] + [], 0);
  }

  /** Ten `A`s and ten `B`s: two RUNs explain them, the merged RUN does not. */
  lemma RunsMerged(a: Byte, b: Byte, segment: Bytes)
    requires a != b
    ensures var target := Fill(a, 10) + Fill(b, 10);
            var insts := [Run(10), Run(10)];
            && TotalLen(insts) == |target|
            && Explains(segment, target, insts, 0)
            && Optimized(insts, target) == [Run(20)]
            && !Explains(segment, target, [Run(20)], 0)
  {
    hide Optimized, Explains, TotalLen;
    var target := Fill(a, 10) + Fill(b, 10);
    PairExplains(segment, target, Run(10), Run(10));
    PairOptimized(Run(10), Run(10), target);
    WrongRun(segment, target, [Run(20)], 0, 10);
  }

  /** A source copy up to the end of the source, continued from the start of the target. */
  lemma CopiesJoined(segment: Bytes)
    requires |segment| > 0
    ensures var target := segment + segment;
            var n := |segment|;
            var insts := [Copy(n, 0, 0), Copy(n, n, 0)];
            && TotalLen(insts) == |target|
            && Explains(segment, target, insts, 0) && Accepted(n, insts)
            && Optimized(insts, target) == [Copy(2 * n, 0, 0)]
            && !Accepted(n, [Copy(2 * n, 0, 0)])
  {
    hide Optimized, Explains, TotalLen;
    var target, n := segment + segment, |segment|;
    var u := segment + target;
    assert u[0..n] == segment && target[0..n] == segment && u[n..n + n] == segment && target[n..n + n] == segment;
    PairExplains(segment, target, Copy(n, 0, 0), Copy(n, n, 0));
    PairOptimized(Copy(n, 0, 0), Copy(n, n, 0), target);
    assert [Copy(2 * n, 0, 0)][0] == Copy(2 * n, 0, 0);
  }
}
