/**
  The match engine as it runs: hash tables, rolling checksums and an
  incrementally kept run length, proved to find what the plain search finds.
  */
module MatchEngines {
  import opened Base
  import opened Instructions
  import opened Rolling
  import opened Tables
  import opened Matching
  import opened Overlap

  /** The instructions the plain search gives for a window. */
  ghost function Search(env: Env, srcPos: nat): seq<Inst>
    requires env.cfg.largeStep > 0
  {
    if |env.target| < SMALL_LOOK then Gap(0, |env.target|)
    else Emit(Resolve(Scan(env, InitialState(env, srcPos))), |SourceOf(env)|, |env.target|, 0)
  }

  /** What the search returns partitions the target and replays to it. */
  lemma SearchGood(env: Env, srcPos: nat)
    requires ValidEnv(env)
    ensures Good(SourceOf(env), env.target, Search(env, srcPos), 0)
  {
    hide Good, Resolve, Emit, Scan, InitialState, Gap;
    if |env.target| < SMALL_LOOK {
      NothingLeft(SourceOf(env), env.target);
      GoodGap(SourceOf(env), env.target, [], 0, |env.target|);
      assert Gap(0, |env.target|) + [] == Gap(0, |env.target|);
    } else {
      SearchSound(env, srcPos);
      ResolveGood(SourceOf(env), env.target, Scan(env, InitialState(env, srcPos)));
    }
  }

  /** A window that stands in the source where the search looks first is one COPY, whatever the rest. */
  lemma PrefixCopied(env: Env, srcPos: nat)
    requires env.cfg.largeStep > 0 && |env.target| >= MIN_MATCH && |SourceOf(env)| < RUN_ADDR && env.source.Some?
    requires srcPos + |env.target| <= |SourceOf(env)|
    requires SourceOf(env)[srcPos..srcPos + |env.target|] == env.target
    ensures Search(env, srcPos) == [Copy(|env.target|, srcPos, 0)]
  {
    hide Step;
    var s, t, n := SourceOf(env), env.target, |env.target|;
    assert t[..n] == t;
    InitialMatchIs(env, srcPos, n);
    var m := Match(0, n, srcPos, true);
    assert Scan(env, InitialState(env, srcPos)) == [m];
    assert [m][..0] == [] && Resolve([]) == [];
    assert Resolve([m]) == Place([], m) == [m];
    assert [m][1..] == [];
    assert Emit([m], |s|, n, 0) == [] + [Copy(n, srcPos, 0)] + [];
  }

  /** The hash functions and table sizes of an engine; any will do. */
  datatype Hashes = Hashes(small: Bytes -> nat, single: Byte -> nat, smallCfg: HashCfg, sprevsz: nat, largeCfg: HashCfg)

  ghost predicate ValidHashes(h: Hashes) {
    ValidCfg(h.smallCfg) && ValidCfg(h.largeCfg)
  }

  ghost function EnvOf(cfg: MatcherConfig, h: Hashes, target: Bytes, source: Option<Bytes>): Env {
    Env(target, source, cfg, h.small, h.smallCfg, h.sprevsz, h.single, h.largeCfg)
  }

  /** The values the loop carries from position to position. */
  datatype Rolled = Rolled(scksum: nat, lcksum: nat, runL: nat, runC: Byte)

  /** Each of them is what it would be if computed afresh. */
  ghost predicate Current(env: Env, pos: nat, anchor: nat, v: Rolled) {
    pos + SMALL_LOOK <= |env.target| && anchor <= pos ==>
      && v.scksum == env.smallHash(env.target[pos..pos + SMALL_LOOK])
      && v.runL == TrailingRun(env.target[anchor..pos + SMALL_LOOK])
      && v.runC == env.target[pos + SMALL_LOOK - 1]
      && (env.source.Some? && pos + env.cfg.largeLook <= |env.target| ==>
            v.lcksum == Checksum(env.target[pos..pos + env.cfg.largeLook], env.single))
  }

  class MatchEngine {
    const cfg: MatcherConfig
    const smallHash: Bytes -> nat
    const single: Byte -> nat
    const largeTable: LargeTable
    const smallTable: SmallTable
    var matchSrcpos: nat

    /** The source the large table was filled from. */
    ghost var indexed: Option<Bytes>

    ghost predicate Valid()
      reads this, largeTable, largeTable.table, smallTable, smallTable.table, smallTable.prev
    {
      && ValidConfig(cfg)
      && largeTable.Valid() && smallTable.Valid()
      && largeTable.table != smallTable.table && largeTable.table != smallTable.prev
      && (indexed.None? ==> forall b :: 0 <= b < largeTable.table.Length ==> largeTable.table[b] == 0)
      && (indexed.Some? ==>
            forall b :: 0 <= b < largeTable.table.Length ==>
              largeTable.table[b]
              == Stored(ScanSource(indexed.value, cfg.largeLook, cfg.largeStep, single, largeTable.cfg, b)))
    }

    ghost function EnvFor(target: Bytes, source: Option<Bytes>): Env {
      Env(target, source, cfg, smallHash, smallTable.cfg, smallTable.prev.Length, single, largeTable.cfg)
    }

    constructor (cfg: MatcherConfig, hashes: Hashes)
      requires ValidConfig(cfg) && ValidHashes(hashes)
      ensures Valid() && matchSrcpos == 0 && indexed == None && smallTable.history == []
      ensures EnvFor([], None) == EnvOf(cfg, hashes, [], None)
      ensures fresh(largeTable) && fresh(largeTable.table)
      ensures fresh(smallTable) && fresh(smallTable.table) && fresh(smallTable.prev)
    {
      this.cfg := cfg;
      smallHash := hashes.small;
      single := hashes.single;
      largeTable := new LargeTable(hashes.largeCfg);
      smallTable := new SmallTable(hashes.smallCfg, hashes.sprevsz);
      matchSrcpos := 0;
      indexed := None;
    }

    method IndexSource(source: Bytes)
      requires Valid() && indexed == None
      modifies this`indexed, largeTable.table
      ensures Valid() && indexed == Some(source)
    {
      Tables.IndexSource(largeTable, source, cfg.largeLook, cfg.largeStep, single);
      indexed := Some(source);
    }

    /** Computes everything afresh at a new position. */
    method Restart(target: Bytes, source: Option<Bytes>, pos: nat, v: Rolled) returns (r: Rolled)
      requires Valid()
      ensures Current(EnvFor(target, source), pos, pos, r)
    {
      r := v;
      if pos + SMALL_LOOK <= |target| {
        assert target[pos..][..SMALL_LOOK] == target[pos..pos + SMALL_LOOK];
        var runL, runC := CompRun(target[pos..], SMALL_LOOK);
        r := Rolled(smallHash(target[pos..pos + SMALL_LOOK]), v.lcksum, runL, runC);
        if source.Some? && pos + cfg.largeLook <= |target| {
          assert target[pos..][..cfg.largeLook] == target[pos..pos + cfg.largeLook];
          var c := ComputeChecksum(target[pos..], cfg.largeLook, single);
          r := r.(lcksum := c);
        }
      }
    }

    /** The run at the end of the look-ahead, one byte further on. */
    method SlideRun(target: Bytes, pos: nat, ghost anchor: nat, runL: nat, runC: Byte) returns (runL': nat, runC': Byte)
      requires anchor < pos && pos + SMALL_LOOK <= |target|
      requires runL == TrailingRun(target[anchor..pos + SMALL_LOOK - 1]) && runC == target[pos + SMALL_LOOK - 2]
      ensures runL' == TrailingRun(target[anchor..pos + SMALL_LOOK]) && runC' == target[pos + SMALL_LOOK - 1]
    {
      hide TrailingRun;
      var nextByte := target[pos + SMALL_LOOK - 1];
      ghost var s := target[anchor..pos + SMALL_LOOK - 1];
      assert target[anchor..pos + SMALL_LOOK] == s + [nextByte];
      TrailingRunStep(s, nextByte);
      if nextByte == runC {
        return runL + 1, runC;
      }
      return 1, nextByte;
    }

    /** The source checksum, one byte further on. */
    method SlideChecksum(target: Bytes, pos: nat, lcksum: nat) returns (c: nat)
      requires 0 < pos && pos + cfg.largeLook <= |target|
      requires lcksum == Checksum(target[pos - 1..pos - 1 + cfg.largeLook], single)
      ensures c == Checksum(target[pos..pos + cfg.largeLook], single)
    {
      hide Checksum;
      var look := cfg.largeLook;
      ghost var w := target[pos - 1..pos + look];
      assert w[..look] == target[pos - 1..pos - 1 + look] && w[1..] == target[pos..pos + look];
      RollExact(w, look, single);
      c := UpdateChecksum(lcksum, target[pos - 1], target[pos - 1 + look], look, single);
    }

    /** Moves on by one byte, updating run and checksum. */
    method Slide(target: Bytes, source: Option<Bytes>, pos: nat, ghost anchor: nat, v: Rolled) returns (r: Rolled)
      requires Valid() && anchor < pos
      requires Current(EnvFor(target, source), pos - 1, anchor, v)
      ensures Current(EnvFor(target, source), pos, anchor, r)
    {
      hide Checksum, TrailingRun;
      r := v;
      if pos + SMALL_LOOK <= |target| {
        var runL, runC := SlideRun(target, pos, anchor, v.runL, v.runC);
        r := Rolled(smallHash(target[pos..pos + SMALL_LOOK]), v.lcksum, runL, runC);
        if source.Some? && pos + cfg.largeLook <= |target| {
          var c := SlideChecksum(target, pos, v.lcksum);
          r := r.(lcksum := c);
        }
      }
    }

    /** 1. A run. */
    method TryRun(target: Bytes, source: Option<Bytes>, pos: nat, minMatch: nat, matches: seq<Match>, v: Rolled,
                  ghost st: State) returns (p: Probe)
      requires Valid() && At(st, pos, minMatch, matches)
      requires st.anchor <= pos && pos + SMALL_LOOK <= |target|
      requires Current(EnvFor(target, source), pos, st.anchor, v)
      ensures p == ProbeRun(EnvFor(target, source), st)
    {
      hide TrailingRun, RunLength, Checksum;
      p := Stay(minMatch, false, matches);
      if v.runL == SMALL_LOOK {
        var rest := target[pos + SMALL_LOOK..];
        var more := FindRunLength(rest, v.runC, |rest|);
        var total := v.runL + more;
        if total >= minMatch && total >= MIN_RUN {
          var recorded := matches + [Match(pos, total, RUN_ADDR, false)];
          if TryLazy(total, cfg.maxLazy, pos, |target|) {
            p := Stay(total, true, recorded);
          } else {
            p := Jump(total, recorded);
          }
        }
      }
    }

    method CompareForward(a: Bytes, b: Bytes, i: nat, j: nat) returns (k: nat)
      requires i <= |a| && j <= |b|
      ensures k == Forward(a, b, i, j)
    {
      k := ForwardMatch(a[i..], b[j..], Min(|a| - i, |b| - j));
    }

    method CompareBackward(a: Bytes, b: Bytes, i: nat, j: nat) returns (k: nat)
      requires i <= |a| && j <= |b|
      ensures k == Backward(a, b, i, j)
    {
      hide SuffixUpTo, Backward, AgreeOn, Slice;
      var maxBack := Min(i, j);
      if maxBack == 0 {
        return 0;
      }
      var s, t := Slice(a, i - maxBack, maxBack), Slice(b, j - maxBack, maxBack);
      SlicedBackward(a, b, i - maxBack, j - maxBack, s, t, maxBack);
      k := BackwardMatch(s, t, maxBack);
    }

    /** Stretches a source position in both directions. */
    method ExtendSourceMatch(target: Bytes, source: Bytes, pos: nat, srcPos: nat) returns (r: Option<Match>)
      requires pos <= |target|
      ensures r == ExtendSource(target, source, pos, srcPos)
    {
      hide Forward, Backward;
      if srcPos >= |source| {
        return None;
      }
      var fwd := CompareForward(source, target, srcPos, pos);
      if fwd < MIN_MATCH {
        return None;
      }
      var back := CompareBackward(source, target, srcPos, pos);
      return Some(Match(pos - back, back + fwd, srcPos - back, true));
    }

    /** Drops the recorded matches a backward-stretched one covers. */
    method EraseCovered(matches: seq<Match>, from: nat) returns (r: seq<Match>)
      ensures r == Erase(matches, from)
    {
      r := matches;
      while r != [] && r[|r| - 1].targetPos >= from
        invariant Erase(r, from) == Erase(matches, from)
        decreases |r|
      {
        r := r[..|r| - 1];
      }
    }

    /** The position the large table gives, which is the one a scan of the source gives. */
    method LookupSource(target: Bytes, source: Option<Bytes>, pos: nat, lcksum: nat) returns (r: Option<nat>)
      requires Valid() && (source.Some? ==> indexed == source)
      requires source.Some? && pos + cfg.largeLook <= |target| ==>
                 lcksum == Checksum(target[pos..pos + cfg.largeLook], single)
      ensures r == SourceCandidate(EnvFor(target, source), pos)
    {
      hide Checksum, ScanSource;
      if source.None? || pos + cfg.largeLook > |target| {
        return None;
      }
      r := largeTable.Lookup(lcksum);
    }

    /** 2. A source match. */
    method TryLarge(target: Bytes, source: Option<Bytes>, pos: nat, v: Rolled, q: Probe, ghost st: State)
      returns (p: Probe)
      requires Valid() && (source.Some? ==> indexed == source)
      requires st.pos == pos && st.anchor <= pos && pos + SMALL_LOOK <= |target| && q.Stay?
      requires Current(EnvFor(target, source), pos, st.anchor, v)
      ensures p == ProbeSource(EnvFor(target, source), st, q)
    {
      hide SourceCandidate, ExtendSource, Erase, TrailingRun, Checksum;
      p := q;
      var srcPos := LookupSource(target, source, pos, v.lcksum);
      if srcPos.Some? {
        var src := if source.Some? then source.value else [];
        var found := ExtendSourceMatch(target, src, pos, srcPos.value);
        if found.Some? {
          var m := found.value;
          var back := pos - m.targetPos;
          var fwd := m.length - back;
          if fwd >= q.minMatch {
            var matches := q.matches;
            if back > 0 {
              matches := EraseCovered(matches, m.targetPos);
            }
            matches := matches + [m];
            if TryLazy(fwd, cfg.maxLazy, pos, |target|) {
              p := Stay(fwd, true, matches);
            } else {
              p := Jump(fwd, matches);
            }
          }
        }
      }
    }

    /**
      Walks the chain from `head`, keeping the longest agreement. Every position
      on the chain is an earlier one, so nothing is copied from the future.
      */
    method WalkChain(target: Bytes, pos: nat, head: nat, maxChain: nat, ghost bucket: nat) returns (best: Best)
      requires Valid() && pos <= |target| && maxChain > 0
      requires Before(smallTable.history, pos) && Entry(bucket, head) in smallTable.history
      ensures best == Pick(target, pos, Chain(smallTable.history, smallTable.prev.Length, bucket, pos, head, maxChain),
                           Best(0, 0), cfg.longEnough)
    {
      hide Pick, Forward, ChainPrev;
      ghost var h, size := smallTable.history, smallTable.prev.Length;
      var base: nat := head;
      var chain := maxChain;
      best := Best(0, 0);
      ghost var goal := Pick(target, pos, Chain(h, size, bucket, pos, base, chain), best, cfg.longEnough);
      while true
        invariant chain > 0 && Entry(bucket, base) in h
        invariant goal == Pick(target, pos, Chain(h, size, bucket, pos, base, chain), best, cfg.longEnough)
        decreases chain
      {
        assert base < pos;
        ghost var rest := ChainRest(h, size, bucket, pos, base, chain);
        PickCons(target, pos, base, rest, best, cfg.longEnough);
        var len := CompareForward(target, target, base, pos);
        if len > best.len {
          best := Best(len, base);
          if len >= cfg.longEnough || pos + len >= |target| {
            return;
          }
        }
        chain := chain - 1;
        if chain == 0 {
          assert rest == [];
          PickNothing(target, pos, best, cfg.longEnough);
          return;
        }
        var next := smallTable.ChainBack(base, pos, bucket);
        if next.None? {
          assert rest == [];
          PickNothing(target, pos, best, cfg.longEnough);
          return;
        }
        base := next.value;
      }
    }

    /** The best earlier stretch of the target, if it is worth a copy. */
    method SearchSmall(target: Bytes, source: Option<Bytes>, pos: nat, scksum: nat, minMatch: nat)
      returns (r: Option<Match>)
      requires Valid() && pos + SMALL_LOOK <= |target|
      requires Before(smallTable.history, pos)
      requires scksum == smallHash(target[pos..pos + SMALL_LOOK])
      ensures r == SmallMatch(EnvFor(target, source), smallTable.history, pos, minMatch)
    {
      hide Pick, Chain, Latest;
      var head := smallTable.Lookup(scksum);
      if head.None? {
        PickNothing(target, pos, Best(0, 0), cfg.longEnough);
        return None;
      }
      var maxChain := if minMatch > MIN_MATCH then cfg.smallLchain else cfg.smallChain;
      ghost var bucket := smallTable.cfg.bucket(scksum);
      var best := WalkChain(target, pos, head.value, maxChain, bucket);
      if best.len < MIN_MATCH {
        return None;
      }
      var distance := pos - best.offset;
      if best.len == 4 && distance >= 0x4000 {
        return None;
      }
      if best.len == 5 && distance >= 0x20_0000 {
        return None;
      }
      return Some(Match(pos, best.len, best.offset, false));
    }

    /** 3. A copy from earlier in the target; the position is remembered in any case. */
    method TrySmall(target: Bytes, source: Option<Bytes>, pos: nat, v: Rolled, q: Probe, ghost st: State)
      returns (p: Probe)
      requires Valid() && |target| < U32_BOUND
      requires st.pos == pos && st.anchor <= pos && pos + SMALL_LOOK <= |target| && q.Stay?
      requires Current(EnvFor(target, source), pos, st.anchor, v)
      requires smallTable.history == st.history && Before(st.history, pos)
      modifies smallTable, smallTable.table, smallTable.prev
      ensures Valid()
      ensures p == ProbeSelf(EnvFor(target, source), st, q)
      ensures smallTable.history == Remembered(EnvFor(target, source), st)
    {
      hide SmallMatch, TrailingRun, Checksum;
      p := q;
      var found := SearchSmall(target, source, pos, v.scksum, q.minMatch);
      smallTable.Insert(v.scksum, pos);
      if found.Some? && found.value.length >= q.minMatch {
        var m := found.value;
        if TryLazy(m.length, cfg.maxLazy, pos, |target|) {
          p := Stay(m.length, true, q.matches + [m]);
        } else {
          p := Jump(m.length, q.matches + [m]);
        }
      }
    }

    /** The three probes in turn, up to the first that makes the scan jump. */
    method TryAll(target: Bytes, source: Option<Bytes>, pos: nat, minMatch: nat, matches: seq<Match>, v: Rolled,
                  ghost st: State) returns (p: Probe)
      requires Valid() && (source.Some? ==> indexed == source) && |target| < U32_BOUND
      requires At(st, pos, minMatch, matches) && Ready(EnvFor(target, source), st)
      requires Current(EnvFor(target, source), pos, st.anchor, v)
      requires smallTable.history == st.history
      modifies smallTable, smallTable.table, smallTable.prev
      ensures Valid()
      ensures Step(EnvFor(target, source), st)
           == if p.Jump? then Land(st, p, smallTable.history) else Creep(st, p, smallTable.history)
    {
      hide ProbeRun, ProbeSource, ProbeSelf, Remembered, Current;
      p := TryRun(target, source, pos, minMatch, matches, v, st);
      if p.Jump? {
        return;
      }
      p := TryLarge(target, source, pos, v, p, st);
      if p.Jump? {
        return;
      }
      p := TrySmall(target, source, pos, v, p, st);
    }

    /** The main loop: the matches of the plain search, found with incremental state. */
    method ScanTarget(target: Bytes, source: Option<Bytes>, start: nat, initial: seq<Match>)
      returns (matches: seq<Match>)
      requires Valid() && (source.Some? ==> indexed == source) && |target| < U32_BOUND
      requires smallTable.history == []
      modifies smallTable, smallTable.table, smallTable.prev
      ensures Valid()
      ensures matches == Scan(EnvFor(target, source), State(start, MIN_MATCH, start, initial, []))
    {
      hide Step, Current;
      ghost var env := EnvFor(target, source);
      ghost var st := State(start, MIN_MATCH, start, initial, []);
      ghost var goal := Scan(env, st);
      var pos: nat, minMatch: nat := start, MIN_MATCH;
      matches := initial;
      var v := Restart(target, source, pos, Rolled(0, 0, 0, 0));
      while pos + SMALL_LOOK <= |target|
        invariant Valid() && smallTable.history == st.history
        invariant At(st, pos, minMatch, matches) && st.anchor <= pos && Before(st.history, pos)
        invariant Current(env, pos, st.anchor, v)
        invariant Scan(env, st) == goal
        decreases |target| - pos
      {
        var p := TryAll(target, source, pos, minMatch, matches, v, st);
        st := Step(env, st);
        matches := p.matches;
        if p.Jump? {
          pos, minMatch := pos + p.len, MIN_MATCH;
          v := Restart(target, source, pos, v);
        } else {
          minMatch := if !p.lazy && p.minMatch > MIN_MATCH then p.minMatch - 1 else p.minMatch;
          pos := pos + 1;
          v := Slide(target, source, pos, st.anchor, v);
        }
      }
    }

    /**
      Finds the instructions for a target window. Hash tables, rolling checksums
      and run state give exactly what the plain search gives.
      */
    method FindMatches(target: Bytes, source: Option<Bytes>) returns (instructions: seq<Inst>)
      requires Valid() && (source.Some? ==> indexed == source)
      requires |target| < U32_BOUND && (source.Some? ==> |source.value| < RUN_ADDR)
      modifies this`matchSrcpos, smallTable, smallTable.table, smallTable.prev
      ensures Valid()
      ensures instructions == Search(EnvFor(target, source), old(matchSrcpos))
      ensures matchSrcpos == NextSrcPos(EnvFor(target, source), old(matchSrcpos))
      ensures Good(if source.Some? then source.value else [], target, instructions, 0)
    {
      hide Scan, Emit, Resolve, Good, Forward;
      ghost var env := EnvFor(target, source);
      SearchGood(env, matchSrcpos);
      smallTable.Reset();
      if |target| < SMALL_LOOK {
        if target == [] {
          return [];
        }
        return [Add(|target|)];
      }
      var start, initial := 0, [];
      var srcPos := matchSrcpos;
      if source.Some? && srcPos < |source.value| {
        var fwd := CompareForward(source.value, target, srcPos, 0);
        if fwd >= MIN_MATCH {
          start, initial := fwd, [Match(0, fwd, srcPos, true)];
          if fwd == |target| {
            matchSrcpos := srcPos + fwd;
          }
        }
      }
      assert InitialState(env, srcPos) == State(start, MIN_MATCH, start, initial, []);
      var matches := ScanTarget(target, source, start, initial);
      instructions := MatchesToInstructions(target, if source.Some? then |source.value| else 0, matches);
    }
  }

  /** The loop's own variables are those of the plain search. */
  ghost predicate At(st: State, pos: nat, minMatch: nat, matches: seq<Match>) {
    st.pos == pos && st.minMatch == minMatch && st.matches == matches
  }

  /** Comparing backward in two slices, of which one starts at the front, is comparing backward in the whole. */
  lemma {:induction false} SlicedBackward(a: Bytes, b: Bytes, i: nat, j: nat, s: Bytes, t: Bytes, x: nat)
    requires (i == 0 || j == 0) && x <= |s| == |t| && i + |s| <= |a| && j + |s| <= |b|
    requires forall y :: 0 <= y < |s| ==> s[y] == a[i + y] && t[y] == b[j + y]
    ensures SuffixUpTo(s, t, x) == Backward(a, b, i + x, j + x)
    decreases x
  {
    if x > 0 {
      assert s[x - 1] == a[i + (x - 1)] && t[x - 1] == b[j + (x - 1)];
      SlicedBackward(a, b, i, j, s, t, x - 1);
    }
  }

  /** What a chain offers behind its first position. */
  ghost function ChainRest(history: seq<Entry>, size: nat, bucket: nat, cur: nat, head: nat, n: nat): (r: seq<nat>)
    requires Entry(bucket, head) in history
    ensures Chain(history, size, bucket, cur, head, n) == [head] + r
    ensures forall i :: 0 <= i < |r| ==> Entry(bucket, r[i]) in history
  {
    if n <= 1 then []
    else
      match ChainPrev(history, size, bucket, head, cur)
      case None => []
      case Some(p) => Chain(history, size, bucket, cur, p, n - 1)
  }

  lemma PickNothing(target: Bytes, pos: nat, best: Best, longEnough: nat)
    requires pos <= |target|
    ensures Pick(target, pos, [], best, longEnough) == best
  {
  }
}
