/**
  The match search, written without any of its incremental state: at every
  position checksums and runs are computed afresh, chains are looked up in the
  full history, and the source is scanned from its beginning.
  */
module Matching {
  import opened Base
  import opened Rolling
  import opened Tables

  const SMALL_LOOK := 4

  /** The address that marks a match as a run. */
  const RUN_ADDR: nat := U64_BOUND - 1

  // ---------------------------------------------------------------------
  // Profiles
  // ---------------------------------------------------------------------

  datatype MatcherConfig = MatcherConfig(
    largeLook: nat,
    largeStep: nat,
    smallChain: nat,
    smallLchain: nat,
    maxLazy: nat,
    longEnough: nat)

  ghost predicate ValidConfig(c: MatcherConfig) {
    c.largeLook > 0 && c.largeStep > 0 && c.smallChain > 0 && c.smallLchain > 0
  }

  function ConfigForLevel(level: nat): (c: MatcherConfig)
    ensures ValidConfig(c) && c.longEnough >= 6
  {
    if level <= 1 then MatcherConfig(9, 26, 1, 1, 6, 6)
    else if level == 2 then MatcherConfig(9, 15, 1, 1, 18, 18)
    else if level <= 5 then MatcherConfig(9, 8, 4, 1, 18, 35)
    else if level == 6 then MatcherConfig(9, 3, 8, 2, 36, 70)
    else MatcherConfig(9, 2, 44, 13, 90, 70)
  }

  // ---------------------------------------------------------------------
  // Matches
  // ---------------------------------------------------------------------

  datatype Match = Match(targetPos: nat, length: nat, addr: nat, isSource: bool)

  function End(m: Match): nat {
    m.targetPos + m.length
  }

  /** The match lies in the target, and its bytes are what it claims they are. */
  ghost predicate Genuine(source: Bytes, target: Bytes, m: Match) {
    && m.length > 0 && End(m) <= |target|
    && if m.addr == RUN_ADDR then
         forall k :: m.targetPos <= k < End(m) ==> target[k] == target[m.targetPos]
       else if m.isSource then
         m.addr + m.length <= |source| && target[m.targetPos..End(m)] == source[m.addr..m.addr + m.length]
       else
         m.addr < m.targetPos && target[m.targetPos..End(m)] == target[m.addr..m.addr + m.length]
  }

  ghost predicate AllGenuine(source: Bytes, target: Bytes, matches: seq<Match>) {
    forall i :: 0 <= i < |matches| ==> Genuine(source, target, matches[i])
  }

  // ---------------------------------------------------------------------
  // The search at one position
  // ---------------------------------------------------------------------

  /** Everything a search depends on; the hash functions are arbitrary. */
  datatype Env = Env(
    target: Bytes,
    source: Option<Bytes>,
    cfg: MatcherConfig,
    smallHash: Bytes -> nat,
    smallCfg: HashCfg,
    chainSize: nat,
    single: Byte -> nat,
    largeCfg: HashCfg)

  ghost predicate ValidEnv(env: Env) {
    ValidConfig(env.cfg) && |SourceOf(env)| < RUN_ADDR && |env.target| < U32_BOUND
  }

  function SourceOf(env: Env): Bytes {
    if env.source.Some? then env.source.value else []
  }

  /** `anchor` is where run detection last started over. */
  datatype State = State(pos: nat, minMatch: nat, anchor: nat, matches: seq<Match>, history: seq<Entry>)

  /** Whether the scan jumps over what was found, or stays for a better match. */
  datatype Probe =
    | Jump(len: nat, matches: seq<Match>)
    | Stay(minMatch: nat, lazy: bool, matches: seq<Match>)

  predicate TryLazy(len: nat, maxLazy: nat, pos: nat, avail: nat) {
    maxLazy > 0 && len < maxLazy && pos + len + 2 <= avail
  }

  function Found(env: Env, pos: nat, len: nat, matches: seq<Match>): Probe {
    if TryLazy(len, env.cfg.maxLazy, pos, |env.target|) then Stay(len, true, matches) else Jump(len, matches)
  }

  /** A run that starts here and has not been offered before. */
  function ProbeRun(env: Env, st: State): (p: Probe)
    requires st.anchor <= st.pos && st.pos + SMALL_LOOK <= |env.target|
    ensures p.Jump? ==> p.len > 0
  {
    var t := env.target;
    var total := SMALL_LOOK + RunLength(t[st.pos + SMALL_LOOK..], t[st.pos + SMALL_LOOK - 1]);
    if TrailingRun(t[st.anchor..st.pos + SMALL_LOOK]) == SMALL_LOOK && total >= st.minMatch && total >= MIN_RUN then
      Found(env, st.pos, total, st.matches + [Match(st.pos, total, RUN_ADDR, false)])
    else Stay(st.minMatch, false, st.matches)
  }

  /** How far `a` from `i` on and `b` from `j` on agree. */
  function Forward(a: Bytes, b: Bytes, i: nat, j: nat): (k: nat)
    requires i <= |a| && j <= |b|
    ensures i + k <= |a| && j + k <= |b|
  {
    CommonPrefix(a[i..], b[j..])
  }

  /** The `n` bytes from `lo` on. */
  function Slice(s: Bytes, lo: nat, n: nat): (r: Bytes)
    requires lo + n <= |s|
    ensures |r| == n && forall x :: 0 <= x < n ==> r[x] == s[lo + x]
  {
    s[lo..lo + n]
  }

  /** How far `a` before `i` and `b` before `j` agree. */
  function Backward(a: Bytes, b: Bytes, i: nat, j: nat): (k: nat)
    requires i <= |a| && j <= |b|
    ensures k <= i && k <= j
    decreases i
  {
    if i == 0 || j == 0 || a[i - 1] != b[j - 1] then 0 else 1 + Backward(a, b, i - 1, j - 1)
  }

  /** A source position, stretched forward and backward as far as the bytes agree. */
  function ExtendSource(target: Bytes, src: Bytes, pos: nat, srcPos: nat): (r: Option<Match>)
    requires pos <= |target|
    ensures r.Some? ==> r.value.targetPos <= pos && pos + MIN_MATCH <= End(r.value)
  {
    if srcPos >= |src| then None
    else
      var fwd := Forward(src, target, srcPos, pos);
      if fwd < MIN_MATCH then None
      else
        var back := Backward(src, target, srcPos, pos);
        Some(Match(pos - back, back + fwd, srcPos - back, true))
  }

  /** Drops the matches at the end that start at or behind `from`. */
  function Erase(matches: seq<Match>, from: nat): (r: seq<Match>)
    ensures r <= matches
  {
    if matches != [] && matches[|matches| - 1].targetPos >= from then Erase(matches[..|matches| - 1], from)
    else matches
  }

  /** The source position the checksum at `pos` leads to. */
  function SourceCandidate(env: Env, pos: nat): Option<nat>
    requires env.cfg.largeStep > 0
  {
    if env.source.None? || pos + env.cfg.largeLook > |env.target| then None
    else
      var c := Checksum(env.target[pos..pos + env.cfg.largeLook], env.single);
      var bucket := env.largeCfg.bucket(c);
      ScanSource(env.source.value, env.cfg.largeLook, env.cfg.largeStep, env.single, env.largeCfg, bucket)
  }

  function ProbeSource(env: Env, st: State, p: Probe): (r: Probe)
    requires env.cfg.largeStep > 0 && st.pos + SMALL_LOOK <= |env.target| && p.Stay?
    ensures r.Jump? ==> r.len > 0
  {
    match SourceCandidate(env, st.pos)
    case None => p
    case Some(srcPos) =>
      match ExtendSource(env.target, SourceOf(env), st.pos, srcPos)
      case None => p
      case Some(m) =>
        var back := st.pos - m.targetPos;
        var fwd := m.length - back;
        if fwd < p.minMatch then p
        else Found(env, st.pos, fwd, (if back > 0 then Erase(p.matches, m.targetPos) else p.matches) + [m])
  }

  /** The first `n` positions of a chain, latest first. */
  function Chain(history: seq<Entry>, size: nat, bucket: nat, cur: nat, head: nat, n: nat): (r: seq<nat>)
    requires Entry(bucket, head) in history
    ensures forall i :: 0 <= i < |r| ==> Entry(bucket, r[i]) in history
    decreases n
  {
    if n <= 1 then [head]
    else
      match ChainPrev(history, size, bucket, head, cur)
      case None => [head]
      case Some(p) => [head] + Chain(history, size, bucket, cur, p, n - 1)
  }

  function Candidates(history: seq<Entry>, size: nat, bucket: nat, cur: nat, n: nat): (r: seq<nat>)
    ensures forall i :: 0 <= i < |r| ==> Entry(bucket, r[i]) in history
  {
    match Latest(history, bucket)
    case None => []
    case Some(head) => Chain(history, size, bucket, cur, head, n)
  }

  datatype Best = Best(len: nat, offset: nat)

  /** The first candidate with the longest agreement, unless an earlier one is long enough. */
  function Pick(target: Bytes, pos: nat, cands: seq<nat>, best: Best, longEnough: nat): Best
    requires pos <= |target| && forall i :: 0 <= i < |cands| ==> cands[i] <= |target|
    decreases |cands|
  {
    if cands == [] then best
    else
      var len := Forward(target, target, cands[0], pos);
      if len > best.len then
        if len >= longEnough || pos + len >= |target| then Best(len, cands[0])
        else Pick(target, pos, cands[1..], Best(len, cands[0]), longEnough)
      else Pick(target, pos, cands[1..], best, longEnough)
  }

  lemma PickCons(target: Bytes, pos: nat, c: nat, rest: seq<nat>, best: Best, longEnough: nat)
    requires pos <= |target| && c <= |target| && forall i :: 0 <= i < |rest| ==> rest[i] <= |target|
    ensures var len := Forward(target, target, c, pos);
            Pick(target, pos, [c] + rest, best, longEnough) ==
              if len > best.len then
                if len >= longEnough || pos + len >= |target| then Best(len, c)
                else Pick(target, pos, rest, Best(len, c), longEnough)
              else Pick(target, pos, rest, best, longEnough)
  {
    hide Forward;
    assert ([c] + rest)[1..] == rest;
  }

  function SmallBucket(env: Env, pos: nat): nat
    requires pos + SMALL_LOOK <= |env.target|
  {
    env.smallCfg.bucket(env.smallHash(env.target[pos..pos + SMALL_LOOK]))
  }

  /** Short matches at great distances do not pay. */
  function Worthwhile(pos: nat, best: Best): Option<Match> {
    if best.len < MIN_MATCH then None
    else if best.len == 4 && pos - best.offset >= 0x4000 then None
    else if best.len == 5 && pos - best.offset >= 0x20_0000 then None
    else Some(Match(pos, best.len, best.offset, false))
  }

  ghost predicate Before(history: seq<Entry>, pos: nat) {
    forall e :: e in history ==> e.pos < pos
  }

  ghost function SmallMatch(env: Env, history: seq<Entry>, pos: nat, minMatch: nat): Option<Match>
    requires pos + SMALL_LOOK <= |env.target| && Before(history, pos)
  {
    var n := if minMatch > MIN_MATCH then env.cfg.smallLchain else env.cfg.smallChain;
    var cands := Candidates(history, env.chainSize, SmallBucket(env, pos), pos, n);
    Worthwhile(pos, Pick(env.target, pos, cands, Best(0, 0), env.cfg.longEnough))
  }

  ghost function ProbeSelf(env: Env, st: State, p: Probe): (r: Probe)
    requires st.pos + SMALL_LOOK <= |env.target| && Before(st.history, st.pos) && p.Stay?
    ensures r.Jump? ==> r.len > 0
  {
    match SmallMatch(env, st.history, st.pos, p.minMatch)
    case None => p
    case Some(m) => if m.length < p.minMatch then p else Found(env, st.pos, m.length, p.matches + [m])
  }

  // ---------------------------------------------------------------------
  // The scan
  // ---------------------------------------------------------------------

  function Remembered(env: Env, st: State): seq<Entry>
    requires st.pos + SMALL_LOOK <= |env.target|
  {
    if st.pos + 1 < U32_BOUND then st.history + [Entry(SmallBucket(env, st.pos), st.pos)] else st.history
  }

  /** Goes behind what was found and starts over there. */
  function Land(st: State, p: Probe, history: seq<Entry>): State
    requires p.Jump?
  {
    State(st.pos + p.len, MIN_MATCH, st.pos + p.len, p.matches, history)
  }

  /** Moves on by one byte; a bar raised by an earlier match sinks slowly. */
  function Creep(st: State, p: Probe, history: seq<Entry>): State
    requires p.Stay?
  {
    State(st.pos + 1, if !p.lazy && p.minMatch > MIN_MATCH then p.minMatch - 1 else p.minMatch,
          st.anchor, p.matches, history)
  }

  ghost predicate Ready(env: Env, st: State) {
    && env.cfg.largeStep > 0
    && st.anchor <= st.pos && st.pos + SMALL_LOOK <= |env.target|
    && Before(st.history, st.pos)
  }

  ghost function Step(env: Env, st: State): (r: State)
    requires Ready(env, st)
    ensures st.pos < r.pos && r.anchor <= r.pos && Before(r.history, r.pos)
  {
    var a := ProbeRun(env, st);
    if a.Jump? then Land(st, a, st.history)
    else
      var b := ProbeSource(env, st, a);
      if b.Jump? then Land(st, b, st.history)
      else
        var c := ProbeSelf(env, st, b);
        if c.Jump? then Land(st, c, Remembered(env, st)) else Creep(st, c, Remembered(env, st))
  }

  /** All matches recorded from a state on. */
  ghost function Scan(env: Env, st: State): seq<Match>
    requires env.cfg.largeStep > 0 && st.anchor <= st.pos && Before(st.history, st.pos)
    decreases |env.target| - st.pos
  {
    if st.pos + SMALL_LOOK > |env.target| then st.matches else Scan(env, Step(env, st))
  }

  /** How far the target begins like the source at `srcPos`; zero if that is too short to matter. */
  function InitialMatch(env: Env, srcPos: nat): (k: nat)
    ensures k <= |env.target|
  {
    if srcPos >= |SourceOf(env)| then 0
    else
      var k := Forward(SourceOf(env), env.target, srcPos, 0);
      if k < MIN_MATCH then 0 else k
  }

  function InitialState(env: Env, srcPos: nat): (st: State)
    ensures st.anchor <= st.pos && st.history == []
  {
    var k := InitialMatch(env, srcPos);
    State(k, MIN_MATCH, k, if k == 0 then [] else [Match(0, k, srcPos, true)], [])
  }

  /** Where the next window should look first. */
  function NextSrcPos(env: Env, srcPos: nat): nat {
    var k := InitialMatch(env, srcPos);
    if k > 0 && k == |env.target| then srcPos + k else srcPos
  }

  // ---------------------------------------------------------------------
  // The rules of the scan
  // ---------------------------------------------------------------------

  /** Higher levels index more of the source, walk longer chains and wait longer. */
  lemma ConfigMonotone(low: nat, high: nat)
    requires low <= high
    ensures var a, b := ConfigForLevel(low), ConfigForLevel(high);
            && b.largeStep <= a.largeStep && a.largeLook == b.largeLook
            && a.smallChain <= b.smallChain && a.smallLchain <= b.smallLchain && a.maxLazy <= b.maxLazy
  {
  }

  /** The five profiles. */
  lemma Profiles()
    ensures ConfigForLevel(1) == MatcherConfig(9, 26, 1, 1, 6, 6) && ConfigForLevel(0) == ConfigForLevel(1)
    ensures ConfigForLevel(2) == MatcherConfig(9, 15, 1, 1, 18, 18)
    ensures ConfigForLevel(3) == MatcherConfig(9, 8, 4, 1, 18, 35) == ConfigForLevel(5)
    ensures ConfigForLevel(6) == MatcherConfig(9, 3, 8, 2, 36, 70)
    ensures ConfigForLevel(7) == MatcherConfig(9, 2, 44, 13, 90, 70) == ConfigForLevel(9)
  {
  }

  /** A run is offered at its start only: four equal bytes, and another byte before them unless the scan began here. */
  lemma RunAtStart(t: Bytes, anchor: nat, pos: nat)
    requires anchor <= pos && pos + SMALL_LOOK <= |t|
    ensures TrailingRun(t[anchor..pos + SMALL_LOOK]) == SMALL_LOOK
       <==> && t[pos] == t[pos + 1] == t[pos + 2] == t[pos + 3]
            && (anchor < pos ==> t[pos - 1] != t[pos])
  {
    hide TrailingRun;
    var s := t[anchor..pos + SMALL_LOOK];
    var k, n := TrailingRun(s), |s|;
    assert forall i :: 0 <= i < n ==> s[i] == t[anchor + i];
    assert s[n - 1] == t[pos + 3] && s[n - 2] == t[pos + 2] && s[n - 3] == t[pos + 1] && s[n - 4] == t[pos];
    assert anchor < pos ==> s[n - 5] == t[pos - 1];
  }

  /** `n` bytes from `pos` on are the same, and the next one is not. */
  ghost predicate RunOf(t: Bytes, pos: nat, n: nat) {
    && 0 < n && pos + n <= |t|
    && (forall k :: pos <= k < pos + n ==> t[k] == t[pos])
    && (pos + n < |t| ==> t[pos + n] != t[pos])
  }

  /** A run is taken exactly at its start, if it has eight bytes and is not shorter than what is waited for. */
  lemma RunTakenIff(env: Env, st: State, n: nat)
    requires st.anchor <= st.pos && st.pos + SMALL_LOOK <= |env.target| && RunOf(env.target, st.pos, n)
    ensures var t, p := env.target, st.pos;
            ProbeRun(env, st)
            == if n >= 8 && n >= st.minMatch && (st.anchor < p ==> t[p - 1] != t[p])
               then Found(env, p, n, st.matches + [Match(p, n, RUN_ADDR, false)])
               else Stay(st.minMatch, false, st.matches)
  {
    hide TrailingRun, RunLength, Found;
    var t, p := env.target, st.pos;
    RunAtStart(t, st.anchor, p);
    if n >= SMALL_LOOK {
      var rest := t[p + SMALL_LOOK..];
      assert forall i :: 0 <= i < n - SMALL_LOOK ==> rest[i] == t[p + SMALL_LOOK + i];
      RunLengthIs(rest, t[p + SMALL_LOOK - 1], n - SMALL_LOOK);
    } else {
      assert t[p + n] != t[p];
    }
  }

  /** The position the source table leads to is the least indexed one in the bucket of the checksum. */
  lemma SourceCandidateIff(env: Env, pos: nat, p: nat)
    requires env.cfg.largeStep > 0 && env.source.Some? && pos + env.cfg.largeLook <= |env.target|
    ensures var s, look, step := env.source.value, env.cfg.largeLook, env.cfg.largeStep;
            var bucket := env.largeCfg.bucket(Checksum(env.target[pos..pos + look], env.single));
            SourceCandidate(env, pos) == Some(p)
            <==> && Indexed(s, look, step, env.single, env.largeCfg, bucket, p)
                 && forall q: nat :: Indexed(s, look, step, env.single, env.largeCfg, bucket, q) ==> p <= q
  {
    hide Checksum, ScanSource, Indexed;
    var bucket := env.largeCfg.bucket(Checksum(env.target[pos..pos + env.cfg.largeLook], env.single));
    ScanSourceLeast(env.source.value, env.cfg.largeLook, env.cfg.largeStep, env.single, env.largeCfg, bucket, p);
  }

  /** A stretched match cannot be stretched further in either direction; there is none if four bytes do not agree. */
  lemma ExtendMaximal(target: Bytes, src: Bytes, pos: nat, srcPos: nat)
    requires pos <= |target| && srcPos < |src|
    ensures ExtendSource(target, src, pos, srcPos) == None
       <==> !(srcPos + 4 <= |src| && pos + 4 <= |target| && src[srcPos..srcPos + 4] == target[pos..pos + 4])
    ensures ExtendSource(target, src, pos, srcPos).Some? ==>
              var m := ExtendSource(target, src, pos, srcPos).value;
              && m.isSource && m.targetPos <= pos < End(m) <= |target| && m.addr + (pos - m.targetPos) == srcPos
              && m.addr + m.length <= |src|
              && (m.targetPos > 0 && m.addr > 0 ==> target[m.targetPos - 1] != src[m.addr - 1])
              && (End(m) < |target| && m.addr + m.length < |src| ==> target[End(m)] != src[m.addr + m.length])
  {
    hide Forward, Backward;
    ForwardMaximal(src, target, srcPos, pos);
    BackwardMaximal(src, target, srcPos, pos);
    var k := Forward(src, target, srcPos, pos);
    if k >= 4 {
      assert src[srcPos..srcPos + 4] == src[srcPos..srcPos + k][..4];
      assert target[pos..pos + 4] == target[pos..pos + k][..4];
    } else if srcPos + 4 <= |src| && pos + 4 <= |target| {
      assert src[srcPos..srcPos + 4][k] == src[srcPos + k] && target[pos..pos + 4][k] == target[pos + k];
    }
  }

  lemma ForwardMaximal(a: Bytes, b: Bytes, i: nat, j: nat)
    requires i <= |a| && j <= |b|
    ensures var k := Forward(a, b, i, j);
            && a[i..i + k] == b[j..j + k]
            && (i + k < |a| && j + k < |b| ==> a[i + k] != b[j + k])
  {
    hide CommonPrefix;
    ForwardAgrees(a, b, i, j);
    var k := CommonPrefix(a[i..], b[j..]);
    assert i + k < |a| ==> a[i..][k] == a[i + k];
    assert j + k < |b| ==> b[j..][k] == b[j + k];
  }

  lemma {:induction false} BackwardMaximal(a: Bytes, b: Bytes, i: nat, j: nat)
    requires i <= |a| && j <= |b|
    ensures var k := Backward(a, b, i, j);
            k < i && k < j ==> a[i - k - 1] != b[j - k - 1]
    decreases i
  {
    if i > 0 && j > 0 && a[i - 1] == b[j - 1] {
      BackwardMaximal(a, b, i - 1, j - 1);
    }
  }

  /** A source match is taken exactly if it reaches far enough ahead; it replaces the matches it covers. */
  lemma SourceTakenIff(env: Env, st: State, p: Probe, srcPos: nat, m: Match)
    requires env.cfg.largeStep > 0 && st.pos + SMALL_LOOK <= |env.target| && p.Stay?
    requires SourceCandidate(env, st.pos) == Some(srcPos)
    requires ExtendSource(env.target, SourceOf(env), st.pos, srcPos) == Some(m)
    ensures ProbeSource(env, st, p)
         == if End(m) - st.pos < p.minMatch then p
            else Found(env, st.pos, End(m) - st.pos,
                       (if m.targetPos < st.pos then Erase(p.matches, m.targetPos) else p.matches) + [m])
  {
    hide SourceCandidate, ExtendSource;
  }

  /** A self-match is taken exactly if it is not shorter than what is waited for. */
  lemma SelfTakenIff(env: Env, st: State, p: Probe, m: Match)
    requires st.pos + SMALL_LOOK <= |env.target| && Before(st.history, st.pos) && p.Stay?
    requires SmallMatch(env, st.history, st.pos, p.minMatch) == Some(m)
    ensures ProbeSelf(env, st, p) == if m.length < p.minMatch then p else Found(env, st.pos, m.length, p.matches + [m])
  {
    hide SmallMatch;
  }

  /** A match that is not waited for is jumped over; only the position of a self-match is remembered. */
  lemma StepJumps(env: Env, st: State, len: nat, matches: seq<Match>)
    requires Ready(env, st) && |env.target| < U32_BOUND && len > 0
    ensures ProbeRun(env, st) == Jump(len, matches) ==>
              Step(env, st) == State(st.pos + len, MIN_MATCH, st.pos + len, matches, st.history)
    ensures ProbeRun(env, st).Stay? && ProbeSource(env, st, ProbeRun(env, st)) == Jump(len, matches) ==>
              Step(env, st) == State(st.pos + len, MIN_MATCH, st.pos + len, matches, st.history)
    ensures ProbeRun(env, st).Stay? && ProbeSource(env, st, ProbeRun(env, st)).Stay?
            && ProbeSelf(env, st, ProbeSource(env, st, ProbeRun(env, st))) == Jump(len, matches) ==>
              Step(env, st) == State(st.pos + len, MIN_MATCH, st.pos + len, matches,
                                     st.history + [Entry(SmallBucket(env, st.pos), st.pos)])
  {
    hide ProbeRun, ProbeSource, ProbeSelf;
  }

  /** The scan goes on as long as four bytes are left. */
  lemma ScanGoesOn(env: Env, st: State)
    requires env.cfg.largeStep > 0 && st.anchor <= st.pos && Before(st.history, st.pos)
    ensures st.pos + 4 > |env.target| ==> Scan(env, st) == st.matches
    ensures st.pos + 4 <= |env.target| ==> Scan(env, st) == Scan(env, Step(env, st))
  {
    hide Step;
  }

  /** The walk ends at the first candidate that is long enough or reaches the end; the first of the longest is kept. */
  lemma {:induction false} PickFirst(target: Bytes, pos: nat, cands: seq<nat>, best: Best, longEnough: nat)
    requires pos <= |target| && forall i :: 0 <= i < |cands| ==> cands[i] <= |target|
    ensures var r := Pick(target, pos, cands, best, longEnough);
            || r == best
            || (&& best.len < r.len
                && exists k :: 0 <= k < |cands| && r == Best(Forward(target, target, cands[k], pos), cands[k])
                               && PassedOver(target, pos, cands[..k], best.len, r.len, longEnough))
    decreases |cands|
  {
    hide Forward;
    if cands != [] {
      var len, rest := Forward(target, target, cands[0], pos), cands[1..];
      var r := Pick(target, pos, cands, best, longEnough);
      if len > best.len && (len >= longEnough || pos + len >= |target|) {
        assert PassedOver(target, pos, cands[..0], best.len, r.len, longEnough);
        assert r == Best(Forward(target, target, cands[0], pos), cands[0]);
      } else {
        var next := if len > best.len then Best(len, cands[0]) else best;
        PickFirst(target, pos, rest, next, longEnough);
        if r == next && len > best.len {
          assert PassedOver(target, pos, cands[..0], best.len, r.len, longEnough);
          assert r == Best(Forward(target, target, cands[0], pos), cands[0]);
        } else if r != next {
          var k :| 0 <= k < |rest| && r == Best(Forward(target, target, rest[k], pos), rest[k])
                   && PassedOver(target, pos, rest[..k], next.len, r.len, longEnough);
          PassedOverMore(target, pos, cands, k, best.len, next.len, r.len, longEnough);
        }
      }
    }
  }

  /** Candidates that were shorter than the one kept and did not end the walk. */
  ghost predicate PassedOver(target: Bytes, pos: nat, cands: seq<nat>, bar: nat, kept: nat, longEnough: nat) {
    forall c :: c in cands ==>
      && pos <= |target| && c <= |target|
      && var len := Forward(target, target, c, pos);
         len <= bar || (len < kept && len < longEnough && pos + len < |target|)
  }

  lemma PassedOverMore(target: Bytes, pos: nat, cands: seq<nat>, k: nat, bar: nat, next: nat, kept: nat,
                       longEnough: nat)
    requires pos <= |target| && forall i :: 0 <= i < |cands| ==> cands[i] <= |target|
    requires k + 1 < |cands| && next < kept
    requires var len := Forward(target, target, cands[0], pos);
             if len > bar then next == len && len < longEnough && pos + len < |target| else next == bar
    requires PassedOver(target, pos, cands[1..][..k], next, kept, longEnough)
    ensures PassedOver(target, pos, cands[..k + 1], bar, kept, longEnough)
  {
    hide Forward;
    assert cands[..k + 1] == [cands[0]] + cands[1..][..k];
  }

  /** The scan waits for something better exactly if the match is short and there are two bytes behind it. */
  lemma WaitsIff(env: Env, pos: nat, len: nat, matches: seq<Match>)
    ensures Found(env, pos, len, matches) == Stay(len, true, matches)
       <==> len < env.cfg.maxLazy && pos + len + 2 <= |env.target|
    ensures Found(env, pos, len, matches) == Jump(len, matches)
       <==> len >= env.cfg.maxLazy || pos + len + 2 > |env.target|
  {
  }

  /** Nothing found: one byte on, the bar sinks by one, and the position is remembered. */
  lemma StepIdle(env: Env, st: State)
    requires Ready(env, st) && |env.target| < U32_BOUND
    requires var idle := Stay(st.minMatch, false, st.matches);
             ProbeRun(env, st) == ProbeSource(env, st, idle) == ProbeSelf(env, st, idle) == idle
    ensures Step(env, st)
         == State(st.pos + 1, if st.minMatch > MIN_MATCH then st.minMatch - 1 else st.minMatch, st.anchor, st.matches,
                  st.history + [Entry(SmallBucket(env, st.pos), st.pos)])
  {
  }

  /** Something short found: one byte on, and only something at least as long will do. */
  lemma StepWaiting(env: Env, st: State, len: nat, matches: seq<Match>)
    requires Ready(env, st) && |env.target| < U32_BOUND && ProbeRun(env, st).Stay?
    requires ProbeSource(env, st, ProbeRun(env, st)).Stay?
    requires ProbeSelf(env, st, ProbeSource(env, st, ProbeRun(env, st))) == Stay(len, true, matches)
    ensures Step(env, st)
         == State(st.pos + 1, len, st.anchor, matches, st.history + [Entry(SmallBucket(env, st.pos), st.pos)])
  {
  }

  /** A backward-stretched match drops exactly the matches at the end that start inside it. */
  lemma {:induction false} EraseExact(matches: seq<Match>, from: nat)
    ensures var r := Erase(matches, from);
            && r <= matches
            && (r != [] ==> r[|r| - 1].targetPos < from)
            && (forall i :: |r| <= i < |matches| ==> matches[i].targetPos >= from)
    decreases |matches|
  {
    if matches != [] {
      EraseExact(matches[..|matches| - 1], from);
    }
  }

  /** Which self-matches are not worth their address. */
  lemma WorthwhileIff(pos: nat, best: Best)
    requires best.offset <= pos
    ensures Worthwhile(pos, best) == None
       <==> || best.len < 4
            || (best.len == 4 && pos - best.offset >= 16384)
            || (best.len == 5 && pos - best.offset >= 2097152)
    ensures Worthwhile(pos, best).Some? ==> Worthwhile(pos, best).value == Match(pos, best.len, best.offset, false)
  {
  }

  /** The target begins like the source at `srcPos` for exactly `k` bytes. */
  ghost predicate BeginsLike(source: Bytes, target: Bytes, srcPos: nat, k: nat) {
    && srcPos + k <= |source| && k <= |target| && source[srcPos..srcPos + k] == target[..k]
    && (srcPos + k < |source| && k < |target| ==> source[srcPos + k] != target[k])
  }

  /** The first probe takes what the target and the source have in common, if that is long enough. */
  lemma InitialMatchIs(env: Env, srcPos: nat, k: nat)
    requires srcPos < |SourceOf(env)| && BeginsLike(SourceOf(env), env.target, srcPos, k)
    ensures InitialMatch(env, srcPos) == if k >= MIN_MATCH then k else 0
  {
    hide CommonPrefix;
    var s, t := SourceOf(env)[srcPos..], env.target[0..];
    assert t == env.target && s[..k] == t[..k];
    assert k < |s| && k < |t| ==> s[k] == SourceOf(env)[srcPos + k];
    CommonPrefixIs(s, t, k);
  }

  /** The next window looks first behind a target that was found as a whole, and else where this one did. */
  lemma NextSrcPosIs(env: Env, srcPos: nat)
    ensures var s, n := SourceOf(env), |env.target|;
            NextSrcPos(env, srcPos)
            == if n >= MIN_MATCH && srcPos + n <= |s| && s[srcPos..srcPos + n] == env.target then srcPos + n else srcPos
  {
    hide CommonPrefix;
    var s, t, n := SourceOf(env), env.target, |env.target|;
    if srcPos < |s| {
      var k := Forward(s, t, srcPos, 0);
      assert t[0..] == t && t[..n] == t;
      assert k == n ==> s[srcPos..][..n] == s[srcPos..srcPos + n];
      if srcPos + n <= |s| && s[srcPos..srcPos + n] == t {
        assert s[srcPos..][..n] == t[..n];
        CommonPrefixIs(s[srcPos..], t[0..], n);
      }
    }
  }

  // ---------------------------------------------------------------------
  // What the search does not miss
  // ---------------------------------------------------------------------

  /** Later positions come first. */
  ghost predicate Descending(s: seq<nat>) {
    forall i, j :: 0 <= i < j < |s| ==> s[j] < s[i]
  }

  /** Walking back misses no position of the bucket within reach, unless it has met `n` later ones. */
  lemma {:induction false} ChainComplete(history: seq<Entry>, size: nat, bucket: nat, cur: nat, head: nat, n: nat,
                                         p: nat)
    requires Increasing(history) && Entry(bucket, head) in history && forall e :: e in history ==> e.pos <= cur
    ensures var c := Chain(history, size, bucket, cur, head, n);
            && c != [] && c[0] == head && Descending(c)
            && (Entry(bucket, p) in history && p <= head && (p == head || cur - p < size) ==>
                  p in c || (|c| >= n && forall i :: 0 <= i < |c| ==> p < c[i]))
    decreases n
  {
    hide Increasing, LatestBefore;
    if n > 1 {
      var c := Chain(history, size, bucket, cur, head, n);
      var q := LatestBefore(history, bucket, head);
      if q.Some? {
        LatestBeforeIff(history, bucket, head, q.value);
      }
      var prev := ChainPrev(history, size, bucket, head, cur);
      if prev.Some? {
        var rest := Chain(history, size, bucket, cur, prev.value, n - 1);
        ChainComplete(history, size, bucket, cur, prev.value, n - 1, p);
        assert c == [head] + rest;
        assert p in rest ==> p in c;
      } else {
        assert c == [head];
        assert Entry(bucket, p) in history && p < head ==> q.Some? && p <= q.value;
      }
    }
  }

  /** Every remembered position of the bucket within reach is a candidate, unless there are `n` later ones. */
  lemma CandidatesComplete(history: seq<Entry>, size: nat, bucket: nat, cur: nat, n: nat, p: nat)
    requires Increasing(history) && forall e :: e in history ==> e.pos <= cur
    requires Entry(bucket, p) in history && cur - p < size
    ensures var c := Candidates(history, size, bucket, cur, n);
            && c != [] && Descending(c)
            && (p in c || (|c| >= n && forall i :: 0 <= i < |c| ==> p < c[i]))
  {
    hide Increasing, Latest, Chain;
    LatestExists(history, Entry(bucket, p));
    var head := Latest(history, bucket).value;
    LatestIff(history, bucket, head);
    ChainComplete(history, size, bucket, cur, head, n, p);
  }

  /**
    A self-match is not shorter than what any remembered position within reach
    offers, unless it is long enough, reaches the end, or the budget was used up
    by later positions.
    */
  lemma SmallMatchLongest(env: Env, history: seq<Entry>, pos: nat, minMatch: nat, p: nat)
    requires pos + SMALL_LOOK <= |env.target| && Before(history, pos) && Increasing(history)
    requires Entry(SmallBucket(env, pos), p) in history && pos - p < env.chainSize
    requires 6 <= Forward(env.target, env.target, p, pos) && 6 <= env.cfg.longEnough
    ensures var m := SmallMatch(env, history, pos, minMatch);
            var c := Candidates(history, env.chainSize, SmallBucket(env, pos), pos,
                                if minMatch > MIN_MATCH then env.cfg.smallLchain else env.cfg.smallChain);
            || (m.Some? && m.value.length >= Forward(env.target, env.target, p, pos))
            || (m.Some? && (m.value.length >= env.cfg.longEnough || End(m.value) == |env.target|))
            || (|c| >= (if minMatch > MIN_MATCH then env.cfg.smallLchain else env.cfg.smallChain)
                && forall i :: 0 <= i < |c| ==> p < c[i])
  {
    hide Increasing, Forward, Pick, Candidates, SmallBucket;
    var n := if minMatch > MIN_MATCH then env.cfg.smallLchain else env.cfg.smallChain;
    var bucket := SmallBucket(env, pos);
    var c := Candidates(history, env.chainSize, bucket, pos, n);
    CandidatesComplete(history, env.chainSize, bucket, pos, n, p);
    PickLongest(env.target, pos, c, Best(0, 0), env.cfg.longEnough);
    PickIsCandidate(env.target, pos, c, Best(0, 0), env.cfg.longEnough);
  }

  // ---------------------------------------------------------------------
  // Soundness
  // ---------------------------------------------------------------------

  lemma RunGenuine(env: Env, st: State)
    requires st.anchor <= st.pos && st.pos + SMALL_LOOK <= |env.target|
    requires TrailingRun(env.target[st.anchor..st.pos + SMALL_LOOK]) == SMALL_LOOK
    ensures var total := SMALL_LOOK + RunLength(env.target[st.pos + SMALL_LOOK..], env.target[st.pos + SMALL_LOOK - 1]);
            Genuine(SourceOf(env), env.target, Match(st.pos, total, RUN_ADDR, false))
  {
    hide TrailingRun, RunLength;
    RunJoined(env.target, st.anchor, st.pos);
  }

  /** A run that ends the look-ahead goes on behind it. */
  lemma RunJoined(t: Bytes, anchor: nat, p: nat)
    requires anchor <= p && p + SMALL_LOOK <= |t|
    requires TrailingRun(t[anchor..p + SMALL_LOOK]) == SMALL_LOOK
    ensures var b := t[p + SMALL_LOOK - 1];
            var total := SMALL_LOOK + RunLength(t[p + SMALL_LOOK..], b);
            p + total <= |t| && forall i :: p <= i < p + total ==> t[i] == b
  {
    hide TrailingRun, RunLength;
    var s, b, rest := t[anchor..p + SMALL_LOOK], t[p + SMALL_LOOK - 1], t[p + SMALL_LOOK..];
    forall i | p <= i < p + SMALL_LOOK + RunLength(rest, b)
      ensures t[i] == b
    {
      if i < p + SMALL_LOOK {
        assert t[i] == s[i - anchor] == s[|s| - 1];
      } else {
        assert t[i] == rest[i - p - SMALL_LOOK];
      }
    }
  }

  /** Two agreeing stretches that meet agree as a whole. */
  lemma Joined(a: Bytes, b: Bytes, i: nat, j: nat, back: nat, fwd: nat)
    requires back <= i && back <= j && i + fwd <= |a| && j + fwd <= |b|
    requires a[i - back..i] == b[j - back..j] && a[i..i + fwd] == b[j..j + fwd]
    ensures a[i - back..i + fwd] == b[j - back..j + fwd]
  {
    assert a[i - back..i + fwd] == a[i - back..i] + a[i..i + fwd];
    assert b[j - back..j + fwd] == b[j - back..j] + b[j..j + fwd];
  }

  lemma HeadOfRest(s: Bytes, i: nat, n: nat)
    requires i + n <= |s|
    ensures s[i..][..n] == s[i..i + n]
  {
  }

  lemma ForwardAgrees(a: Bytes, b: Bytes, i: nat, j: nat)
    requires i <= |a| && j <= |b|
    ensures var k := Forward(a, b, i, j); a[i..i + k] == b[j..j + k]
  {
    hide CommonPrefix;
    var k := Forward(a, b, i, j);
    HeadOfRest(a, i, k);
    HeadOfRest(b, j, k);
  }

  lemma {:induction false} BackwardSlices(a: Bytes, b: Bytes, i: nat, j: nat, k: nat)
    requires i <= |a| && j <= |b| && k == Backward(a, b, i, j)
    ensures Slice(a, i - k, k) == Slice(b, j - k, k)
    decreases i
  {
    hide Slice;
    if k > 0 {
      BackwardSlices(a, b, i - 1, j - 1, k - 1);
      var s, t := Slice(a, i - k, k), Slice(b, j - k, k);
      var s', t' := Slice(a, i - k, k - 1), Slice(b, j - k, k - 1);
      forall x | 0 <= x < k
        ensures s[x] == t[x]
      {
        if x < k - 1 {
          assert s[x] == s'[x] && t[x] == t'[x];
        }
      }
    }
  }

  lemma SliceIs(s: Bytes, lo: nat, n: nat)
    requires lo + n <= |s|
    ensures Slice(s, lo, n) == s[lo..lo + n]
  {
  }

  lemma BackwardAgrees(a: Bytes, b: Bytes, i: nat, j: nat)
    requires i <= |a| && j <= |b|
    ensures var k := Backward(a, b, i, j); a[i - k..i] == b[j - k..j]
  {
    hide Backward, Slice;
    var k := Backward(a, b, i, j);
    BackwardSlices(a, b, i, j, k);
    SliceIs(a, i - k, k);
    SliceIs(b, j - k, k);
  }

  lemma StretchGenuine(target: Bytes, src: Bytes, pos: nat, srcPos: nat, back: nat, fwd: nat)
    requires |src| < RUN_ADDR && fwd > 0
    requires back <= pos && back <= srcPos && pos + fwd <= |target| && srcPos + fwd <= |src|
    requires src[srcPos - back..srcPos] == target[pos - back..pos]
    requires src[srcPos..srcPos + fwd] == target[pos..pos + fwd]
    ensures Genuine(src, target, Match(pos - back, back + fwd, srcPos - back, true))
  {
    var lo, from, n := pos - back, srcPos - back, back + fwd;
    assert target[lo..lo + n] == src[from..from + n] by {
      Joined(target, src, pos, srcPos, back, fwd);
    }
  }

  lemma ExtendGenuine(target: Bytes, src: Bytes, pos: nat, srcPos: nat)
    requires pos <= |target| && |src| < RUN_ADDR
    requires ExtendSource(target, src, pos, srcPos).Some?
    ensures Genuine(src, target, ExtendSource(target, src, pos, srcPos).value)
  {
    hide Forward, Backward, Genuine;
    ForwardAgrees(src, target, srcPos, pos);
    BackwardAgrees(src, target, srcPos, pos);
    StretchGenuine(target, src, pos, srcPos, Backward(src, target, srcPos, pos), Forward(src, target, srcPos, pos));
  }

  /** A picked offset is one of the candidates, and the length is its agreement. */
  lemma {:induction false} PickIsCandidate(target: Bytes, pos: nat, cands: seq<nat>, best: Best, longEnough: nat)
    requires pos <= |target| && forall i :: 0 <= i < |cands| ==> cands[i] <= |target|
    ensures var r := Pick(target, pos, cands, best, longEnough);
            || r == best
            || (r.offset in cands && r.offset <= |target| && r.len == Forward(target, target, r.offset, pos))
    decreases |cands|
  {
    if cands != [] {
      var len := Forward(target, target, cands[0], pos);
      PickIsCandidate(target, pos, cands[1..], if len > best.len then Best(len, cands[0]) else best, longEnough);
    }
  }

  /** No candidate agrees longer than the one picked, unless the search stopped early. */
  lemma {:induction false} PickLongest(target: Bytes, pos: nat, cands: seq<nat>, best: Best, longEnough: nat)
    requires pos <= |target| && forall i :: 0 <= i < |cands| ==> cands[i] <= |target|
    ensures var r := Pick(target, pos, cands, best, longEnough);
            && best.len <= r.len
            && (|| r.len >= longEnough
                || pos + r.len >= |target|
                || forall i :: 0 <= i < |cands| ==> Forward(target, target, cands[i], pos) <= r.len)
    decreases |cands|
  {
    hide Forward;
    if cands != [] {
      var len := Forward(target, target, cands[0], pos);
      PickLongest(target, pos, cands[1..], if len > best.len then Best(len, cands[0]) else best, longEnough);
      var r := Pick(target, pos, cands, best, longEnough);
      if r.len < longEnough && pos + r.len < |target| {
        forall i | 0 <= i < |cands|
          ensures Forward(target, target, cands[i], pos) <= r.len
        {
          if i > 0 {
            assert cands[i] == cands[1..][i - 1];
          }
        }
      }
    }
  }

  lemma SmallMatchGenuine(env: Env, history: seq<Entry>, pos: nat, minMatch: nat)
    requires ValidEnv(env) && pos + SMALL_LOOK <= |env.target| && Before(history, pos)
    requires SmallMatch(env, history, pos, minMatch).Some?
    ensures Genuine(SourceOf(env), env.target, SmallMatch(env, history, pos, minMatch).value)
  {
    hide Forward, Pick;
    var t := env.target;
    var n := if minMatch > MIN_MATCH then env.cfg.smallLchain else env.cfg.smallChain;
    var cands := Candidates(history, env.chainSize, SmallBucket(env, pos), pos, n);
    PickIsCandidate(t, pos, cands, Best(0, 0), env.cfg.longEnough);
    var m := SmallMatch(env, history, pos, minMatch).value;
    assert Entry(SmallBucket(env, pos), m.addr) in history;
    ForwardAgrees(t, t, m.addr, pos);
  }

  ghost predicate ProbeGenuine(env: Env, p: Probe) {
    AllGenuine(SourceOf(env), env.target, p.matches)
  }

  lemma ProbeRunSound(env: Env, st: State)
    requires Ready(env, st) && AllGenuine(SourceOf(env), env.target, st.matches)
    ensures ProbeGenuine(env, ProbeRun(env, st))
  {
    hide Genuine, RunLength, TrailingRun;
    if TrailingRun(env.target[st.anchor..st.pos + SMALL_LOOK]) == SMALL_LOOK {
      RunGenuine(env, st);
    }
  }

  lemma ProbeSourceSound(env: Env, st: State, p: Probe)
    requires ValidEnv(env) && Ready(env, st) && p.Stay? && ProbeGenuine(env, p)
    ensures ProbeGenuine(env, ProbeSource(env, st, p))
  {
    hide Genuine, ExtendSource, SourceCandidate;
    var c := SourceCandidate(env, st.pos);
    if c.Some? && ExtendSource(env.target, SourceOf(env), st.pos, c.value).Some? {
      ExtendGenuine(env.target, SourceOf(env), st.pos, c.value);
    }
  }

  lemma ProbeSelfSound(env: Env, st: State, p: Probe)
    requires ValidEnv(env) && Ready(env, st) && p.Stay? && ProbeGenuine(env, p)
    ensures ProbeGenuine(env, ProbeSelf(env, st, p))
  {
    hide Genuine, SmallMatch;
    if SmallMatch(env, st.history, st.pos, p.minMatch).Some? {
      SmallMatchGenuine(env, st.history, st.pos, p.minMatch);
    }
  }

  /** On every path of one step, what is recorded is genuine. */
  lemma StepSound(env: Env, st: State)
    requires ValidEnv(env) && Ready(env, st) && AllGenuine(SourceOf(env), env.target, st.matches)
    ensures AllGenuine(SourceOf(env), env.target, Step(env, st).matches)
  {
    hide ProbeRun, ProbeSource, ProbeSelf, Genuine, Remembered;
    ProbeRunSound(env, st);
    var a := ProbeRun(env, st);
    if a.Stay? {
      ProbeSourceSound(env, st, a);
      var b := ProbeSource(env, st, a);
      if b.Stay? {
        ProbeSelfSound(env, st, b);
      }
    }
  }

  lemma {:induction false} ScanSound(env: Env, st: State)
    requires ValidEnv(env) && st.anchor <= st.pos && Before(st.history, st.pos)
    requires AllGenuine(SourceOf(env), env.target, st.matches)
    ensures AllGenuine(SourceOf(env), env.target, Scan(env, st))
    decreases |env.target| - st.pos
  {
    hide Step, Genuine;
    if st.pos + SMALL_LOOK <= |env.target| {
      StepSound(env, st);
      ScanSound(env, Step(env, st));
    }
  }

  /** Every match the scan of a window records is genuine. */
  lemma SearchSound(env: Env, srcPos: nat)
    requires ValidEnv(env)
    ensures AllGenuine(SourceOf(env), env.target, Scan(env, InitialState(env, srcPos)))
  {
    var k := InitialMatch(env, srcPos);
    if k > 0 {
      ForwardAgrees(SourceOf(env), env.target, srcPos, 0);
    }
    ScanSound(env, InitialState(env, srcPos));
  }
}
