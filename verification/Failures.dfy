/** Inputs that the streaming encoder does not give back, reached through the match engine. */
module Failures {
  import opened Base
  import opened Instructions
  import opened Rolling
  import opened Tables
  import opened Matching
  import opened Overlap
  import opened MatchEngines
  import opened Pipeline
  import opened Emission
  import opened Streams
  import opened Windowing
  import opened DeltaEncoders

  /** The state behind a match that was taken. */
  ghost function Landed(pos: nat, matches: seq<Match>, history: seq<Entry>): State {
    State(pos, MIN_MATCH, pos, matches, history)
  }

  /** Matches in order stay as they are. */
  lemma PairResolved(first: Match, second: Match)
    requires End(first) <= second.targetPos
    ensures Resolve([first, second]) == [first, second]
  {
    assert [first, second][..1] == [first] && [first][..0] == [];
    assert Resolve([]) == [];
    assert Resolve([first]) == Place([], first) == [first];
    assert Resolve([first, second]) == Place([first], second) == [first] + [second];
  }

  /** Two adjacent matches up to the end become two instructions. */
  lemma PairEmitted(first: Match, second: Match, sourceLen: nat, n: nat)
    requires End(first) == second.targetPos && End(second) == n
    ensures Emit([first, second], sourceLen, n, 0)
         == Gap(0, first.targetPos) + [InstOf(first, sourceLen)] + [InstOf(second, sourceLen)]
  {
    hide InstOf;
    assert [first, second][1..] == [second] && [second][1..] == [];
    assert Emit([], sourceLen, n, n) == [];
    var last := [InstOf(second, sourceLen)];
    assert Emit([second], sourceLen, n, End(first)) == [] + last + [] == last;
  }

  // ---------------------------------------------------------------------
  // Neighbouring runs
  // ---------------------------------------------------------------------

  /** A run long enough not to wait for a better match is taken, and the scan goes on behind it. */
  lemma RunTaken(env: Env, st: State, n: nat)
    requires Ready(env, st) && st.anchor == st.pos && st.minMatch == MIN_MATCH
    requires MIN_RUN <= n && env.cfg.maxLazy <= n && st.pos + n <= |env.target|
    requires forall k :: st.pos <= k < st.pos + n ==> env.target[k] == env.target[st.pos]
    requires st.pos + n < |env.target| ==> env.target[st.pos + n] != env.target[st.pos]
    ensures Step(env, st)
         == Landed(st.pos + n, st.matches + [Match(st.pos, n, RUN_ADDR, false)], st.history)
  {
    hide ProbeSource, ProbeSelf, RunLength, TrailingRun;
    var t, p := env.target, st.pos;
    var b := t[p];
    var rest := t[p + SMALL_LOOK..];
    assert forall i :: 0 <= i < n - SMALL_LOOK ==> rest[i] == t[p + SMALL_LOOK + i];
    RunLengthIs(rest, b, n - SMALL_LOOK);
    TrailingRunAll(t[p..p + SMALL_LOOK], b);
    assert ProbeRun(env, st) == Jump(n, st.matches + [Match(p, n, RUN_ADDR, false)]);
  }

  lemma {:induction false} TrailingRunAll(s: Bytes, b: Byte)
    requires forall i :: 0 <= i < |s| ==> s[i] == b
    ensures TrailingRun(s) == |s|
    decreases |s|
  {
    if |s| > 1 {
      TrailingRunAll(s[..|s| - 1], b);
    }
  }

  /** Without a source, two long runs of different bytes are found as two RUNs. */
  lemma TwoRunsFound(o: Options, a: Byte, b: Byte, n: nat, m: nat)
    requires a != b && n >= 90 && m >= 90
    ensures Raw(o, [], [Fill(a, n) + Fill(b, m)], 0) == [Run(n), Run(m)]
  {
    hide Step, Resolve, Emit;
    var t := Fill(a, n) + Fill(b, m);
    var env := EnvAt(o, [], t);
    var first, second := Match(0, n, RUN_ADDR, false), Match(n, m, RUN_ADDR, false);
    var st := InitialState(env, 0);
    RunTaken(env, st, n);
    var st' := Step(env, st);
    RunTaken(env, st', m);
    assert [] + [first] == [first] && [first] + [second] == [first, second];
    assert Scan(env, st') == Scan(env, Step(env, st')) == [first, second];
    assert Scan(env, st) == [first, second];
    TwoRunsEmitted(n, m);
  }

  lemma TwoRunsEmitted(n: nat, m: nat)
    requires n > 0 && m > 0
    ensures Emit(Resolve([Match(0, n, RUN_ADDR, false), Match(n, m, RUN_ADDR, false)]), 0, n + m, 0)
         == [Run(n), Run(m)]
  {
    hide Resolve, Emit;
    var first, second := Match(0, n, RUN_ADDR, false), Match(n, m, RUN_ADDR, false);
    PairResolved(first, second);
    PairEmitted(first, second, 0, n + m);
    assert [] + [Run(n)] + [Run(m)] == [Run(n), Run(m)];
  }

  /** The two RUNs found cannot be merged safely. */
  lemma TwoRunsUnsafe(o: Options, a: Byte, b: Byte, n: nat, m: nat)
    requires a != b && n >= 90 && m >= 90 && o.level > 0 && n + m < U32_BOUND
    ensures Sized([], [Fill(a, n) + Fill(b, m)]) && !AllSafe(o, [], [Fill(a, n) + Fill(b, m)])
  {
    hide Raw, Optimized;
    var t := Fill(a, n) + Fill(b, m);
    TwoRunsFound(o, a, b, n, m);
    PairLists(Run(n), Run(m));
    assert !RunsAgree([Run(n), Run(m)], t, 0);
    assert !Safe(o, [], [t], 0);
  }

  /**
    The encoder does not keep its promise for all inputs: on every level above 0
    and with any hash functions, two neighbouring long runs of different bytes
    do not come back.
    */
  method TwoRunsLost(output: Bytes, a: Byte, b: Byte, n: nat, m: nat, opts: Options) returns (result: Bytes)
    requires a != b && n >= 90 && m >= 90 && opts.level > 0 && n + m <= opts.windowSize
    requires ValidOptions(Capped(opts, Fill(a, n) + Fill(b, m)))
    ensures output <= result
    ensures forall verify :: DecodeStream(result[|output|..], [], verify) != Ok(Fill(a, n) + Fill(b, m))
  {
    hide DecodeStream, AllSafe, StreamBytes, Windows;
    var t := Fill(a, n) + Fill(b, m);
    OneWindow(t, opts.windowSize);
    TwoRunsUnsafe(Capped(opts, t), a, b, n, m);
    result := EncodeAll(output, [], t, opts);
  }

  // ---------------------------------------------------------------------
  // Copies that meet at the end of the source
  // ---------------------------------------------------------------------

  ghost predicate Distinct(s: Bytes) {
    forall i, j :: 0 <= i < j < |s| ==> s[i] != s[j]
  }

  /** Some bytes, a nine-byte source, and the bytes again; no byte occurs in two places of the first two. */
  ghost predicate Sandwich(env: Env, l: Bytes, s: Bytes) {
    && env.target == l + s + l && env.source == Some(s) && env.cfg == ConfigForLevel(1)
    && |s| == 9 && |l| >= MIN_MATCH && |env.target| < U32_BOUND
    && Distinct(l + s)
  }

  /** The bytes at every position, and where they differ. */
  lemma SandwichBytes(env: Env, l: Bytes, s: Bytes)
    requires Sandwich(env, l, s)
    ensures var t, m := env.target, |l|;
            && |t| == 2 * m + 9
            && (forall i :: 0 <= i < m ==> t[i] == l[i] && t[i] != s[0])
            && (forall i, j :: 0 <= i < j < m + 9 ==> t[i] != t[j])
            && t[..m] == l && t[m..m + 9] == s && t[m + 9..] == l
  {
    var t, u := env.target, l + s;
    assert t == u + l;
    assert forall i :: 0 <= i < |u| ==> t[i] == u[i];
    assert u[|l|] == s[0];
  }

  /** No other position before `k` falls into the bucket of the first one. */
  ghost predicate FirstAlone(env: Env, k: nat) {
    forall p :: 0 < p < k && p + SMALL_LOOK <= |env.target| ==> SmallBucket(env, p) != SmallBucket(env, 0)
  }

  /** Everything remembered before `k`. */
  ghost function Seen(env: Env, k: nat): (h: seq<Entry>)
    requires k + SMALL_LOOK <= |env.target| + 1
    ensures |h| == k && forall i :: 0 <= i < k ==> h[i] == Entry(SmallBucket(env, i), i)
  {
    seq(k, i requires 0 <= i < k => Entry(SmallBucket(env, i), i))
  }

  lemma NoRun(env: Env, st: State)
    requires Ready(env, st)
    requires env.target[st.pos + SMALL_LOOK - 2] != env.target[st.pos + SMALL_LOOK - 1]
    ensures ProbeRun(env, st) == Stay(st.minMatch, false, st.matches)
  {
    hide RunLength, TrailingRun;
    var s := env.target[st.anchor..st.pos + SMALL_LOOK];
    assert s[|s| - 2] == env.target[st.pos + SMALL_LOOK - 2] && s[|s| - 1] == env.target[st.pos + SMALL_LOOK - 1];
    BrokenRun(s);
  }

  lemma BrokenRun(s: Bytes)
    requires |s| >= 2 && s[|s| - 2] != s[|s| - 1]
    ensures TrailingRun(s) == 1
  {
  }

  lemma NoAgreement(a: Bytes, b: Bytes, i: nat, j: nat)
    requires i < |a| && j < |b| && a[i] != b[j]
    ensures Forward(a, b, i, j) == 0
  {
  }

  /** A nine-byte source is indexed at its start only. */
  lemma OnlyStartIndexed(env: Env, pos: nat, s: Bytes)
    requires env.source == Some(s) && |s| == 9 && env.cfg == ConfigForLevel(1)
    requires SourceCandidate(env, pos).Some?
    ensures SourceCandidate(env, pos).value == 0
  {
    hide Rolling.Checksum, ScanSource;
    var b := env.largeCfg.bucket(Rolling.Checksum(env.target[pos..pos + 9], env.single));
    ScanSourceLeast(s, 9, env.cfg.largeStep, env.single, env.largeCfg, b, SourceCandidate(env, pos).value);
  }

  lemma NothingToStretch(target: Bytes, s: Bytes, pos: nat)
    requires pos < |target| && s != [] && s[0] != target[pos]
    ensures ExtendSource(target, s, pos, 0) == None
  {
    hide Forward, Backward;
    NoAgreement(s, target, 0, pos);
  }

  /** Where the target does not continue like the source, there is no source match. */
  lemma NoSource(env: Env, st: State, p: Probe, l: Bytes, s: Bytes)
    requires Sandwich(env, l, s) && Ready(env, st) && p.Stay? && env.target[st.pos] != s[0]
    ensures ProbeSource(env, st, p) == p
  {
    hide SourceCandidate, ExtendSource, Distinct;
    NothingToStretch(env.target, s, st.pos);
    if SourceCandidate(env, st.pos).Some? {
      OnlyStartIndexed(env, st.pos, s);
    }
  }

  /** A byte that has not occurred before begins no self-match. */
  lemma NoSelf(env: Env, st: State, p: Probe)
    requires Ready(env, st) && p.Stay?
    requires forall i :: 0 <= i < st.pos ==> env.target[i] != env.target[st.pos]
    ensures ProbeSelf(env, st, p) == p
  {
    hide Pick, Candidates, Forward;
    var n := if p.minMatch > MIN_MATCH then env.cfg.smallLchain else env.cfg.smallChain;
    var cands := Candidates(st.history, env.chainSize, SmallBucket(env, st.pos), st.pos, n);
    PickIsCandidate(env.target, st.pos, cands, Best(0, 0), env.cfg.longEnough);
    var r := Pick(env.target, st.pos, cands, Best(0, 0), env.cfg.longEnough);
    if r != Best(0, 0) {
      assert Entry(SmallBucket(env, st.pos), r.offset) in st.history;
      NoAgreement(env.target, env.target, r.offset, st.pos);
    }
  }

  /** On the first bytes nothing is found. */
  lemma FirstBytes(env: Env, l: Bytes, s: Bytes, k: nat)
    requires Sandwich(env, l, s) && k < |l|
    ensures |env.target| == 2 * |l| + 9
    ensures Step(env, State(k, MIN_MATCH, 0, [], Seen(env, k))) == State(k + 1, MIN_MATCH, 0, [], Seen(env, k + 1))
  {
    hide ProbeRun, ProbeSource, ProbeSelf, Distinct;
    SandwichBytes(env, l, s);
    var st := State(k, MIN_MATCH, 0, [], Seen(env, k));
    var none := Stay(MIN_MATCH, false, []);
    NoRun(env, st);
    NoSource(env, st, none, l, s);
    NoSelf(env, st, none);
    assert Seen(env, k) + [Entry(SmallBucket(env, k), k)] == Seen(env, k + 1);
  }

  lemma SourceLookedUp(env: Env, l: Bytes, s: Bytes)
    requires Sandwich(env, l, s)
    ensures SourceCandidate(env, |l|) == Some(0)
  {
    hide Rolling.Checksum, ScanSource, Distinct;
    SandwichBytes(env, l, s);
    assert s[0..0 + 9] == s;
    var b := env.largeCfg.bucket(Rolling.Checksum(s, env.single));
    ScanSourceLeast(s, 9, env.cfg.largeStep, env.single, env.largeCfg, b, 0);
  }

  lemma SourceStretched(env: Env, l: Bytes, s: Bytes)
    requires Sandwich(env, l, s)
    ensures ExtendSource(env.target, s, |l|, 0) == Some(Match(|l|, 9, 0, true))
  {
    hide Distinct, Forward, Backward;
    SandwichBytes(env, l, s);
    WholeAgrees(s, env.target, |l|);
  }

  lemma WholeAgrees(s: Bytes, t: Bytes, m: nat)
    requires m + |s| <= |t| && t[m..m + |s|] == s
    ensures Forward(s, t, 0, m) == |s|
  {
    hide CommonPrefix;
    assert s[0..] == s && s[..|s|] == s && t[m..][..|s|] == s;
    CommonPrefixIs(s, t[m..], |s|);
  }

  /** The source is found as a whole. */
  lemma SourceFound(env: Env, l: Bytes, s: Bytes)
    requires Sandwich(env, l, s)
    ensures |env.target| == 2 * |l| + 9
    ensures Step(env, State(|l|, MIN_MATCH, 0, [], Seen(env, |l|)))
         == Landed(|l| + 9, [Match(|l|, 9, 0, true)], Seen(env, |l|))
  {
    hide ProbeRun, ProbeSelf, SourceCandidate, ExtendSource, Distinct;
    SandwichBytes(env, l, s);
    var m, st := |l|, State(|l|, MIN_MATCH, 0, [], Seen(env, |l|));
    NoRun(env, st);
    SourceLookedUp(env, l, s);
    SourceStretched(env, l, s);
    assert [] + [Match(m, 9, 0, true)] == [Match(m, 9, 0, true)];
  }

  /** If nothing later fell into its bucket, the latest entry there is the first one. */
  lemma {:induction false} FirstIsLatest(env: Env, k: nat)
    requires 0 < k && k + SMALL_LOOK <= |env.target|
    requires FirstAlone(env, k)
    ensures Latest(Seen(env, k), SmallBucket(env, 0)) == Some(0)
    decreases k
  {
    hide SmallBucket;
    if k == 1 {
      assert Seen(env, 1)[..0] == [];
    } else {
      FirstIsLatest(env, k - 1);
      assert Seen(env, k)[..k - 1] == Seen(env, k - 1);
    }
  }

  /** The first bytes stand again behind the source, and nothing else is on the chain. */
  lemma FirstBytesAgain(env: Env, l: Bytes, s: Bytes)
    requires Sandwich(env, l, s)
    requires FirstAlone(env, |l|)
    ensures |env.target| == 2 * |l| + 9
    ensures SmallMatch(env, Seen(env, |l|), |l| + 9, MIN_MATCH) == Some(Match(|l| + 9, |l|, 0, false))
  {
    hide Distinct, Forward, Latest;
    SandwichBytes(env, l, s);
    var t, m, pos := env.target, |l|, |l| + 9;
    assert t[pos..pos + SMALL_LOOK] == t[pos..][..SMALL_LOOK] == t[..m][..SMALL_LOOK] == t[0..SMALL_LOOK];
    FirstIsLatest(env, m);
    assert Candidates(Seen(env, m), env.chainSize, SmallBucket(env, pos), pos, 1) == [0];
    TailAgrees(t, m, pos);
  }

  lemma TailAgrees(t: Bytes, m: nat, pos: nat)
    requires pos + m == |t| && m <= pos && t[pos..] == t[..m]
    ensures Forward(t, t, 0, pos) == m
  {
    hide CommonPrefix;
    assert t[0..][..m] == t[..m] && t[pos..][..m] == t[pos..];
    CommonPrefixIs(t[0..], t[pos..], m);
  }

  /** Then the first bytes are found again. */
  lemma CopyFound(env: Env, l: Bytes, s: Bytes)
    requires Sandwich(env, l, s)
    requires FirstAlone(env, |l|)
    ensures |env.target| == 2 * |l| + 9
    ensures var st := Landed(|l| + 9, [Match(|l|, 9, 0, true)], Seen(env, |l|));
            Step(env, st)
            == Landed(2 * |l| + 9, [Match(|l|, 9, 0, true), Match(|l| + 9, |l|, 0, false)], Remembered(env, st))
  {
    hide ProbeRun, ProbeSource, Distinct, SmallMatch, SmallBucket;
    SandwichBytes(env, l, s);
    var t, m, pos := env.target, |l|, |l| + 9;
    var matches := [Match(m, 9, 0, true)];
    var st := Landed(pos, matches, Seen(env, m));
    assert forall i :: 0 <= i < m ==> t[pos + i] == t[pos..][i] == l[i] == t[i];
    NoRun(env, st);
    NoSource(env, st, Stay(MIN_MATCH, false, matches), l, s);
    FirstBytesAgain(env, l, s);
    assert matches + [Match(pos, m, 0, false)] == [Match(m, 9, 0, true), Match(pos, m, 0, false)];
  }

  lemma {:induction false} ScanFrom(env: Env, l: Bytes, s: Bytes, k: nat)
    requires Sandwich(env, l, s) && k <= |l|
    ensures |env.target| == 2 * |l| + 9
    ensures Scan(env, State(k, MIN_MATCH, 0, [], Seen(env, k)))
         == Scan(env, State(|l|, MIN_MATCH, 0, [], Seen(env, |l|)))
    decreases |l| - k
  {
    hide Step, Distinct;
    SandwichBytes(env, l, s);
    if k < |l| {
      FirstBytes(env, l, s, k);
      ScanFrom(env, l, s, k + 1);
    }
  }

  /** The whole scan: the source once, then the first bytes again. */
  lemma SandwichScanned(env: Env, l: Bytes, s: Bytes)
    requires Sandwich(env, l, s)
    requires FirstAlone(env, |l|)
    ensures Scan(env, InitialState(env, 0)) == [Match(|l|, 9, 0, true), Match(|l| + 9, |l|, 0, false)]
  {
    hide Step, Distinct, SmallBucket;
    SandwichBytes(env, l, s);
    NoAgreement(s, env.target, 0, 0);
    assert Seen(env, 0) == [];
    ScanFrom(env, l, s, 0);
    SourceFound(env, l, s);
    CopyFound(env, l, s);
    var st := Landed(|l| + 9, [Match(|l|, 9, 0, true)], Seen(env, |l|));
    assert Scan(env, st) == Scan(env, Step(env, st));
  }

  lemma SandwichEmitted(m: nat)
    requires m > 0
    ensures Emit(Resolve([Match(m, 9, 0, true), Match(m + 9, m, 0, false)]), 9, 2 * m + 9, 0)
         == [Add(m), Copy(9, 0, 0), Copy(m, 9, 0)]
  {
    hide Resolve, Emit;
    var first, second := Match(m, 9, 0, true), Match(m + 9, m, 0, false);
    PairResolved(first, second);
    PairEmitted(first, second, 9, 2 * m + 9);
    assert [Add(m)] + [Copy(9, 0, 0)] + [Copy(m, 9, 0)] == [Add(m), Copy(9, 0, 0), Copy(m, 9, 0)];
  }

  /** What is found: literals, the source, and a copy that starts where the source ends. */
  lemma SandwichFound(o: Options, l: Bytes, s: Bytes)
    requires Sandwich(EnvAt(o, s, l + s + l), l, s)
    requires FirstAlone(EnvAt(o, s, l + s + l), |l|)
    ensures Raw(o, s, [l + s + l], 0) == [Add(|l|), Copy(9, 0, 0), Copy(|l|, 9, 0)]
  {
    hide Scan, Resolve, Emit, Distinct, SmallBucket;
    SandwichScanned(EnvAt(o, s, l + s + l), l, s);
    SandwichEmitted(|l|);
  }

  lemma SandwichUnsafe(o: Options, l: Bytes, s: Bytes)
    requires Sandwich(EnvAt(o, s, l + s + l), l, s) && o.level == 1
    requires FirstAlone(EnvAt(o, s, l + s + l), |l|)
    ensures Sized(s, [l + s + l]) && !AllSafe(o, s, [l + s + l])
  {
    hide Raw, Optimized, SmallBucket, Distinct, RunsAgree;
    var t, insts := l + s + l, [Add(|l|), Copy(9, 0, 0), Copy(|l|, 9, 0)];
    SandwichFound(o, l, s);
    assert NonZero(insts) == insts by {
      assert insts[1..] == [Copy(9, 0, 0), Copy(|l|, 9, 0)];
      PairLists(Copy(9, 0, 0), Copy(|l|, 9, 0));
    }
    assert insts[1..] == [Copy(9, 0, 0), Copy(|l|, 9, 0)];
    assert !BoundaryFree(insts[1..], 9);
    assert !Safe(o, s, [t], 0);
  }

  /**
    On level 1 a copy of the whole source, followed by a copy from the start of
    the target, is merged into one that the decoder rejects. The only condition
    on the hash functions is that the first four bytes share no bucket with the
    positions up to the source.
    */
  method CopiesLost(output: Bytes, l: Bytes, s: Bytes, opts: Options) returns (result: Bytes)
    requires opts.level == 1 && |l + s + l| <= opts.windowSize
    requires ValidOptions(Capped(opts, l + s + l))
    requires Sandwich(EnvAt(Capped(opts, l + s + l), s, l + s + l), l, s)
    requires FirstAlone(EnvAt(Capped(opts, l + s + l), s, l + s + l), |l|)
    ensures output <= result
    ensures forall verify :: DecodeStream(result[|output|..], s, verify) != Ok(l + s + l)
  {
    hide DecodeStream, AllSafe, StreamBytes, Windows, Distinct, SmallBucket;
    OneWindow(l + s + l, opts.windowSize);
    SandwichUnsafe(Capped(opts, l + s + l), l, s);
    result := EncodeAll(output, s, l + s + l, opts);
  }
}
