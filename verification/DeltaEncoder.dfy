/** The streaming encoder: it cuts what it is fed into windows and encodes each. */
module DeltaEncoders {
  import opened Base
  import opened Instructions
  import opened Headers
  import opened Rolling
  import opened Matching
  import opened Overlap
  import opened MatchEngines
  import opened Pipeline
  import opened Emission
  import opened Streams
  import opened Windowing

  // ---------------------------------------------------------------------
  // What is written for each window
  // ---------------------------------------------------------------------

  /** The hash functions and tables depend on the window size. */
  datatype Options = Options(level: nat, windowSize: nat, checksum: bool, hashes: nat -> Hashes)

  ghost predicate ValidOptions(o: Options) {
    0 < o.windowSize < U32_BOUND && forall n :: ValidHashes(o.hashes(n))
  }

  ghost function EnvAt(o: Options, source: Bytes, win: Bytes): Env {
    EnvOf(ConfigForLevel(o.level), o.hashes(o.windowSize), win, SourceOption(source))
  }

  /** Where the engine looks first once it has seen these windows. */
  ghost function SrcPosAfter(o: Options, source: Bytes, ws: seq<Bytes>): nat {
    if ws == [] then 0
    else NextSrcPos(EnvAt(o, source, ws[|ws| - 1]), SrcPosAfter(o, source, ws[..|ws| - 1]))
  }

  /** What the search finds for window `i`. */
  ghost function Raw(o: Options, source: Bytes, ws: seq<Bytes>, i: nat): seq<Inst>
    requires i < |ws|
  {
    Search(EnvAt(o, source, ws[i]), SrcPosAfter(o, source, ws[..i]))
  }

  ghost predicate Sized(source: Bytes, ws: seq<Bytes>) {
    |source| <= MAX_SLICE && forall i :: 0 <= i < |ws| ==> |ws[i]| < U32_BOUND
  }

  lemma RawGood(o: Options, source: Bytes, ws: seq<Bytes>, i: nat)
    requires Sized(source, ws) && i < |ws|
    ensures Good(source, ws[i], Raw(o, source, ws, i), 0)
    ensures TotalLen(Raw(o, source, ws, i)) == |ws[i]|
  {
    hide Search, Explains, Accepted;
    var env := EnvAt(o, source, ws[i]);
    assert SourceOf(env) == source;
    SearchGood(env, SrcPosAfter(o, source, ws[..i]));
    ExplainsLen(source, ws[i], Raw(o, source, ws, i), 0);
  }

  /** The instructions written for window `i`: all literal on level 0, else what was found, optimised. */
  ghost function Plan(o: Options, source: Bytes, ws: seq<Bytes>, i: nat): seq<Inst>
    requires Sized(source, ws) && i < |ws|
  {
    if o.level == 0 then Gap(0, |ws[i]|)
    else
      RawGood(o, source, ws, i);
      Optimized(Raw(o, source, ws, i), ws[i])
  }

  lemma LooksBackCons(i: Inst, rest: seq<Inst>, segment: nat, pos: nat)
    ensures LooksBack([i] + rest, segment, pos)
       <==> (i.Copy? ==> i.addr < segment + pos) && LooksBack(rest, segment, pos + i.len)
  {
    assert ([i] + rest)[1..] == rest;
  }

  lemma {:induction false} NonZeroLooksBack(insts: seq<Inst>, segment: nat, pos: nat)
    requires LooksBack(insts, segment, pos)
    ensures LooksBack(NonZero(insts), segment, pos)
    decreases |insts|
  {
    if insts != [] {
      NonZeroLooksBack(insts[1..], segment, pos + insts[0].len);
      LooksBackCons(insts[0], NonZero(insts[1..]), segment, pos);
    }
  }

  lemma {:induction false} CoalesceLooksBack(cur: Inst, rest: seq<Inst>, segment: nat, pos: nat)
    requires LooksBack([cur] + rest, segment, pos)
    ensures LooksBack(CoalesceFrom(cur, rest), segment, pos)
    decreases |rest|
  {
    hide LooksBack;
    LooksBackCons(cur, rest, segment, pos);
    if rest == [] {
      assert [cur] + [] == [cur];
    } else {
      var b, tail := rest[0], rest[1..];
      assert rest == [b] + tail;
      LooksBackCons(b, tail, segment, pos + cur.len);
      var merged := TryCoalesce(cur, b);
      if merged.Some? {
        LooksBackCons(merged.value, tail, segment, pos);
        CoalesceLooksBack(merged.value, tail, segment, pos);
      } else {
        CoalesceLooksBack(b, tail, segment, pos + cur.len);
        LooksBackCons(cur, CoalesceFrom(b, tail), segment, pos);
      }
    }
  }

  /** Literals and runs in front change nothing. */
  lemma {:induction false} PlainLooksBack(front: seq<Inst>, rest: seq<Inst>, segment: nat, pos: nat)
    requires forall i :: 0 <= i < |front| ==> !front[i].Copy?
    requires LooksBack(rest, segment, pos + TotalLen(front))
    ensures LooksBack(front + rest, segment, pos)
    decreases |front|
  {
    if front == [] {
      assert front + rest == rest;
    } else {
      assert front + rest == [front[0]] + (front[1..] + rest);
      PlainLooksBack(front[1..], rest, segment, pos + front[0].len);
      LooksBackCons(front[0], front[1..] + rest, segment, pos);
    }
  }

  lemma SplitOneLooksBack(i: Inst, rest: seq<Inst>, target: Bytes, segment: nat, pos: nat)
    requires pos + i.len <= |target|
    requires (i.Copy? ==> i.addr < segment + pos) && LooksBack(rest, segment, pos + i.len)
    ensures LooksBack(SplitOne(i, target, pos) + rest, segment, pos)
  {
    hide LooksBack, Split, Canonical;
    if i.Add? {
      var data := target[pos..pos + i.len];
      SplitCanonical(data, 0, false);
      CanonicalPlain(data, Split(data, 0), 0, false);
      PlainLooksBack(Split(data, 0), rest, segment, pos);
    } else {
      LooksBackCons(i, rest, segment, pos);
    }
  }

  lemma {:induction false} SplitAllLooksBack(insts: seq<Inst>, target: Bytes, segment: nat, pos: nat)
    requires LooksBack(insts, segment, pos) && pos + TotalLen(insts) <= |target|
    ensures LooksBack(SplitAll(insts, target, pos), segment, pos)
    decreases |insts|
  {
    hide SplitOne;
    if insts != [] {
      var next := pos + insts[0].len;
      SplitAllLooksBack(insts[1..], target, segment, next);
      SplitOneLooksBack(insts[0], SplitAll(insts[1..], target, next), target, segment, pos);
    }
  }

  /** Whether or not it is safe, optimising never makes a COPY look ahead. */
  lemma OptimizedLooksBack(insts: seq<Inst>, target: Bytes, segment: nat)
    requires LooksBack(insts, segment, 0) && TotalLen(insts) <= |target|
    ensures LooksBack(Optimized(insts, target), segment, 0)
  {
    hide LooksBack, NonZero, CoalesceFrom, SplitAll;
    NonZeroLooksBack(insts, segment, 0);
    CoalescedTotal(insts);
    var nz := NonZero(insts);
    if nz != [] {
      assert [nz[0]] + nz[1..] == nz;
      CoalesceLooksBack(nz[0], nz[1..], segment, 0);
    }
    SplitAllLooksBack(Coalesce(insts), target, segment, 0);
  }

  /** Every plan can be written. */
  lemma PlanEmittable(o: Options, source: Bytes, ws: seq<Bytes>, i: nat)
    requires Sized(source, ws) && i < |ws|
    ensures Emittable(Plan(o, source, ws, i), |source|, |ws[i]|)
  {
    hide Raw, LooksBack, Explains, Accepted, Optimized;
    if o.level == 0 {
      PlainGood(source, ws[i]);
      ExplainsLen(source, ws[i], Gap(0, |ws[i]|), 0);
      ExplainsLooksBack(source, ws[i], Gap(0, |ws[i]|), 0);
    } else {
      RawGood(o, source, ws, i);
      ExplainsLooksBack(source, ws[i], Raw(o, source, ws, i), 0);
      OptimizedLooksBack(Raw(o, source, ws, i), ws[i], |source|);
      OptimizeExact(source, ws[i], Raw(o, source, ws, i));
    }
  }

  lemma PlainGood(source: Bytes, win: Bytes)
    ensures Good(source, win, Gap(0, |win|), 0)
  {
    hide Good, Gap;
    NothingLeft(source, win);
    GoodGap(source, win, [], 0, |win|);
    assert Gap(0, |win|) + [] == Gap(0, |win|);
  }

  /** The window is within the hard limit, and it is all literals or what was found can be merged safely. */
  ghost predicate Safe(o: Options, source: Bytes, ws: seq<Bytes>, i: nat)
    requires Sized(source, ws) && i < |ws|
  {
    RawGood(o, source, ws, i);
    |ws[i]| <= HARD_MAX_WINSIZE && (o.level == 0 || Mergeable(Raw(o, source, ws, i), ws[i], |source|))
  }

  /** What window `i` decodes to. */
  ghost function WindowResult(o: Options, source: Bytes, ws: seq<Bytes>, i: nat, verify: bool): Result<Bytes>
    requires Sized(source, ws) && i < |ws|
  {
    PlanEmittable(o, source, ws, i);
    Outcome(source, ws[i], Plan(o, source, ws, i), o.checksum, verify)
  }

  /** A window decodes to itself exactly if it is safe. */
  lemma PlanExact(o: Options, source: Bytes, ws: seq<Bytes>, i: nat, verify: bool)
    requires Sized(source, ws) && i < |ws|
    ensures WindowResult(o, source, ws, i, verify) == Ok(ws[i]) <==> Safe(o, source, ws, i)
    ensures WindowResult(o, source, ws, i, verify).Ok? ==> |WindowResult(o, source, ws, i, verify).value| == |ws[i]|
  {
    hide Raw, Explains, Accepted, Optimized, Outcome;
    PlanEmittable(o, source, ws, i);
    WindowExact(source, ws[i], Plan(o, source, ws, i), o.checksum, verify);
    if o.level == 0 {
      PlainGood(source, ws[i]);
    } else {
      RawGood(o, source, ws, i);
      OptimizeExact(source, ws[i], Raw(o, source, ws, i));
    }
  }

  // ---------------------------------------------------------------------
  // The stream of windows
  // ---------------------------------------------------------------------

  ghost predicate AllSafe(o: Options, source: Bytes, ws: seq<Bytes>)
    requires Sized(source, ws)
  {
    forall i :: 0 <= i < |ws| ==> Safe(o, source, ws, i)
  }

  ghost function Results(o: Options, source: Bytes, ws: seq<Bytes>, verify: bool): seq<Result<Bytes>>
    requires Sized(source, ws)
  {
    seq(|ws|, i requires 0 <= i < |ws| => WindowResult(o, source, ws, i, verify))
  }

  /** The windows written decode as planned. */
  ghost predicate WrittenAs(o: Options, source: Bytes, ws: seq<Bytes>, encoded: seq<Bytes>) {
    && Sized(source, ws) && |encoded| == |ws|
    && forall i, verify :: 0 <= i < |ws| ==>
         DecodesAs(encoded[i], source, verify, WindowResult(o, source, ws, i, verify))
  }

  /** The bytes of window `i`. */
  ghost function PlannedBytes(o: Options, source: Bytes, ws: seq<Bytes>, i: nat): Bytes
    requires Sized(source, ws) && i < |ws|
  {
    PlanEmittable(o, source, ws, i);
    WindowBytes(source, ws[i], Plan(o, source, ws, i), o.checksum)
  }

  ghost function AllBytes(o: Options, source: Bytes, ws: seq<Bytes>): seq<Bytes>
    requires Sized(source, ws)
  {
    seq(|ws|, i requires 0 <= i < |ws| => PlannedBytes(o, source, ws, i))
  }

  lemma AllBytesSnoc(o: Options, source: Bytes, ws: seq<Bytes>, w: Bytes)
    requires Sized(source, ws + [w]) && Sized(source, ws)
    ensures AllBytes(o, source, ws + [w]) == AllBytes(o, source, ws) + [PlannedBytes(o, source, ws + [w], |ws|)]
  {
    hide WindowBytes, Plan, Optimized, SrcPosAfter, PlannedBytes;
    forall i | 0 <= i < |ws|
      ensures PlannedBytes(o, source, ws + [w], i) == PlannedBytes(o, source, ws, i)
    {
      BytesSnoc(o, source, ws, w, i);
    }
  }

  lemma BytesSnoc(o: Options, source: Bytes, ws: seq<Bytes>, w: Bytes, i: nat)
    requires Sized(source, ws + [w]) && Sized(source, ws) && i < |ws|
    ensures PlannedBytes(o, source, ws + [w], i) == PlannedBytes(o, source, ws, i)
  {
    hide Search, WindowBytes, Optimized, SrcPosAfter;
    assert (ws + [w])[..i] == ws[..i] && (ws + [w])[i] == ws[i];
  }

  /** The whole stream for some data. */
  ghost function StreamBytes(o: Options, source: Bytes, data: Bytes): Bytes
    requires ValidOptions(o) && |source| <= MAX_SLICE
  {
    WindowsConcat(data, o.windowSize);
    var ws := Windows(data, o.windowSize);
    EncodeFileHeader(DEFAULT_FILE_HEADER)
    + Concat(if ws == [] then [EmptyBytes(o.checksum)] else AllBytes(o, source, ws))
  }

  /** Later windows do not change what earlier ones decode to. */
  lemma ResultSnoc(o: Options, source: Bytes, ws: seq<Bytes>, w: Bytes, i: nat, verify: bool)
    requires Sized(source, ws + [w]) && Sized(source, ws) && i < |ws|
    ensures WindowResult(o, source, ws + [w], i, verify) == WindowResult(o, source, ws, i, verify)
  {
    hide Search, Outcome, Optimized, SrcPosAfter;
    assert (ws + [w])[..i] == ws[..i] && (ws + [w])[i] == ws[i];
  }

  lemma SizedSnoc(source: Bytes, ws: seq<Bytes>, w: Bytes)
    requires |w| < U32_BOUND
    ensures Sized(source, ws + [w]) <==> Sized(source, ws)
  {
    assert forall i :: 0 <= i < |ws| ==> ws[i] == (ws + [w])[i];
  }

  lemma WrittenAsSnoc(o: Options, source: Bytes, ws: seq<Bytes>, encoded: seq<Bytes>, w: Bytes, e: Bytes)
    requires WrittenAs(o, source, ws, encoded) && Sized(source, ws + [w])
    requires forall verify :: DecodesAs(e, source, verify, WindowResult(o, source, ws + [w], |ws|, verify))
    ensures WrittenAs(o, source, ws + [w], encoded + [e])
  {
    hide DecodesAs, WindowResult;
    forall i, verify | 0 <= i < |ws + [w]|
      ensures DecodesAs((encoded + [e])[i], source, verify, WindowResult(o, source, ws + [w], i, verify))
    {
      if i < |ws| {
        ResultSnoc(o, source, ws, w, i, verify);
        assert DecodesAs(encoded[i], source, verify, WindowResult(o, source, ws, i, verify));
      }
    }
  }

  /** Windows of the right lengths make up the whole exactly if each is right. */
  lemma {:induction false} CombineExact(ws: seq<Bytes>, xs: seq<Result<Bytes>>)
    requires |xs| == |ws| && forall i :: 0 <= i < |ws| && xs[i].Ok? ==> |xs[i].value| == |ws[i]|
    ensures Combine(xs) == Ok(Concat(ws)) <==> forall i :: 0 <= i < |ws| ==> xs[i] == Ok(ws[i])
    decreases |ws|
  {
    if ws != [] {
      assert forall i :: 0 <= i < |ws| - 1 ==> ws[1..][i] == ws[i + 1] && xs[1..][i] == xs[i + 1];
      CombineExact(ws[1..], xs[1..]);
      assert forall i :: 0 < i < |ws| ==> ws[i] == ws[1..][i - 1] && xs[i] == xs[1..][i - 1];
      if xs[0].Ok? && Combine(xs[1..]).Ok? {
        var v, r := xs[0].value, Combine(xs[1..]).value;
        assert (v + r)[..|ws[0]|] == v && (v + r)[|ws[0]|..] == r;
        assert (ws[0] + Concat(ws[1..]))[..|ws[0]|] == ws[0] && (ws[0] + Concat(ws[1..]))[|ws[0]|..] == Concat(ws[1..]);
      }
    }
  }

  /** The stream decodes to what was cut into windows exactly if every window is safe. */
  lemma StreamExact(o: Options, source: Bytes, ws: seq<Bytes>, encoded: seq<Bytes>, verify: bool)
    requires WrittenAs(o, source, ws, encoded)
    ensures DecodeStream(EncodeFileHeader(DEFAULT_FILE_HEADER) + Concat(encoded), source, verify) == Ok(Concat(ws))
       <==> AllSafe(o, source, ws)
  {
    hide DecodesAs, DecodeStream, WindowResult, Safe, EncodeFileHeader;
    var xs := Results(o, source, ws, verify);
    StreamDecodes(encoded, xs, source, verify);
    forall i | 0 <= i < |ws|
      ensures xs[i] == Ok(ws[i]) <==> Safe(o, source, ws, i)
      ensures xs[i].Ok? ==> |xs[i].value| == |ws[i]|
    {
      PlanExact(o, source, ws, i, verify);
    }
    CombineExact(ws, xs);
  }

  lemma EmptyStream(w: Bytes, source: Bytes, verify: bool)
    requires forall verify :: DecodesAs(w, source, verify, Ok([]))
    ensures DecodeStream(EncodeFileHeader(DEFAULT_FILE_HEADER) + Concat([w]), source, verify) == Ok([])
  {
    hide DecodesAs, DecodeStream, EncodeFileHeader;
    var none: Bytes := [];
    var xs := [Ok(none)];
    StreamDecodes([w], xs, source, verify);
    assert xs[1..] == [] && none + none == none;
    assert Combine(xs) == Ok(none);
  }

  /** The same for the windows of some data, with an empty window if there are none. */
  lemma ClosedExact(o: Options, source: Bytes, data: Bytes, encoded: seq<Bytes>, written: seq<Bytes>, verify: bool)
    requires ValidOptions(o) && WrittenAs(o, source, Windows(data, o.windowSize), encoded)
    requires encoded != [] ==> written == encoded
    requires encoded == [] ==> |written| == 1 && forall verify :: DecodesAs(written[0], source, verify, Ok([]))
    ensures DecodeStream(EncodeFileHeader(DEFAULT_FILE_HEADER) + Concat(written), source, verify) == Ok(data)
       <==> AllSafe(o, source, Windows(data, o.windowSize))
  {
    hide DecodesAs, DecodeStream, WindowResult, Safe, EncodeFileHeader;
    WindowsConcat(data, o.windowSize);
    if encoded == [] {
      EmptyStream(written[0], source, verify);
      assert written == [written[0]];
    } else {
      StreamExact(o, source, Windows(data, o.windowSize), encoded, verify);
    }
  }

  // ---------------------------------------------------------------------
  // The encoder
  // ---------------------------------------------------------------------

  /** At the start nothing is written, left over or remembered. */
  lemma NothingWritten(o: Options, source: Bytes)
    requires ValidOptions(o) && |source| <= MAX_SLICE
    ensures Sized(source, []) && WrittenAs(o, source, [], []) && AllBytes(o, source, []) == []
    ensures Cut([], o.windowSize) == [] && Left([], o.windowSize) == [] && SrcPosAfter(o, source, []) == 0
  {
    hide WindowResult, PlannedBytes;
  }

  /** An engine for all windows, with the source indexed. */
  method NewEngine(source: Bytes, opts: Options) returns (engine: MatchEngine)
    requires ValidOptions(opts)
    ensures engine.Valid() && engine.matchSrcpos == 0 && (source != [] ==> engine.indexed == Some(source))
    ensures engine.EnvFor([], None) == EnvOf(ConfigForLevel(opts.level), opts.hashes(opts.windowSize), [], None)
    ensures fresh(engine) && fresh(engine.largeTable) && fresh(engine.largeTable.table)
    ensures fresh(engine.smallTable) && fresh(engine.smallTable.table) && fresh(engine.smallTable.prev)
  {
    hide MatchEngine.Valid;
    engine := new MatchEngine(ConfigForLevel(opts.level), opts.hashes(opts.windowSize));
    if source != [] {
      engine.IndexSource(source);
    }
  }

  class DeltaEncoder {
    const stream: StreamEncoder
    const opts: Options
    const source: Bytes
    const engine: MatchEngine?
    var buffer: Bytes
    var bytesIn: nat
    var windowsWritten: nat

    /** Everything fed so far, and the windows encoded so far. */
    ghost var fed: Bytes
    ghost var done: seq<Bytes>

    ghost function Owned(): set<object> {
      if engine == null then {}
      else {engine, engine.smallTable, engine.smallTable.table, engine.smallTable.prev}
    }

    ghost function Observed(): set<object> {
      if engine == null then {} else Owned() + {engine.largeTable, engine.largeTable.table}
    }

    ghost predicate EngineReady()
      reads this`done, Observed()
    {
      opts.level > 0 ==>
        && engine != null && engine.Valid()
        && engine.EnvFor([], None) == EnvOf(ConfigForLevel(opts.level), opts.hashes(opts.windowSize), [], None)
        && (source != [] ==> engine.indexed == Some(source))
        && engine.matchSrcpos == SrcPosAfter(opts, source, done)
    }

    /** The stream holds the windows encoded so far. */
    ghost predicate Consistent()
      reads this, stream, Observed()
    {
      && this !in Observed() && stream !in Observed()
      && ValidOptions(opts) && Sized(source, done)
      && stream.Valid() && stream.fileHeader == DEFAULT_FILE_HEADER
      && EngineReady()
      && WrittenAs(opts, source, done, stream.windows)
      && windowsWritten == |done| == |stream.windows|
      && stream.windows == AllBytes(opts, source, done)
    }

    /** Those windows are the full windows of what was fed; the buffer has the rest. */
    ghost predicate Valid()
      reads this, stream, Observed()
    {
      && Consistent()
      && done == Cut(fed, opts.windowSize)
      && buffer == Left(fed, opts.windowSize)
      && bytesIn == |fed|
    }

    constructor (output: Bytes, source: Bytes, opts: Options)
      requires ValidOptions(opts) && |source| <= MAX_SLICE
      ensures Valid() && fed == [] && this.opts == opts && this.source == source && stream.base == output
      ensures fresh(stream) && fresh(Observed())
    {
      hide StreamEncoder.Valid, MatchEngine.Valid, WrittenAs, AllBytes, Sized, SrcPosAfter, Cut, Left;
      NothingWritten(opts, source);
      var eng: MatchEngine? := null;
      if opts.level > 0 {
        eng := NewEngine(source, opts);
      }
      stream := new StreamEncoder(output);
      engine := eng;
      this.opts := opts;
      this.source := source;
      buffer, bytesIn, windowsWritten := [], 0, 0;
      fed, done := [], [];
    }

    /** What is written for a window: literals only on level 0. */
    method PlanWindow(window: Bytes) returns (insts: seq<Inst>)
      requires Consistent() && |window| < U32_BOUND
      modifies Owned()
      ensures Sized(source, done + [window])
      ensures insts == Plan(opts, source, done + [window], |done|)
      ensures opts.level > 0 ==> engine.Valid() && engine.indexed == old(engine.indexed)
      ensures opts.level > 0 ==> engine.matchSrcpos == SrcPosAfter(opts, source, done + [window])
    {
      hide WrittenAs, Search, NextSrcPos, Optimized, StreamEncoder.Valid, MatchEngine.Valid, AllBytes;
      SizedSnoc(source, done, window);
      ghost var ws := done + [window];
      assert ws[..|done|] == done && ws[|done|] == window;
      if opts.level == 0 {
        if window == [] {
          return [];
        }
        return [Add(|window|)];
      }
      assert engine.EnvFor(window, SourceOption(source)) == EnvAt(opts, source, window);
      var raw := engine.FindMatches(window, SourceOption(source));
      RawGood(opts, source, ws, |done|);
      insts := Optimize(raw, window);
    }

    method EncodeWindow(window: Bytes)
      requires Consistent() && |window| < U32_BOUND
      modifies this`windowsWritten, this`done, stream, Owned()
      ensures Consistent() && done == old(done) + [window]
    {
      hide WrittenAs, Plan, Emittable, Outcome, SrcPosAfter, StreamEncoder.Valid, MatchEngine.Valid, DecodesAs;
      hide AllBytes, WindowBytes;
      var insts := PlanWindow(window);
      ghost var ws := done + [window];
      PlanEmittable(opts, source, ws, |done|);
      assert ws[|done|] == window;
      var encoded := Emission.EncodeWindow(source, window, insts, opts.checksum);
      WrittenAsSnoc(opts, source, done, stream.windows, window, encoded);
      AllBytesSnoc(opts, source, done, window);
      stream.WriteRawWindow(encoded);
      windowsWritten := windowsWritten + 1;
      done := ws;
    }

    /**
      Takes in target data in whatever pieces it comes: the windows encoded are
      those of everything fed so far, and the buffer has what is left over.
      */
    method WriteTarget(data: Bytes)
      requires Valid()
      modifies this, stream, Owned()
      ensures Valid() && fed == old(fed) + data
    {
      hide WrittenAs, Cut, Left, Cutting, EngineReady, StreamEncoder.Valid, AllBytes;
      var size := opts.windowSize;
      ghost var all := fed + data;
      CuttingStarts(fed, data, size);
      bytesIn := bytesIn + |data|;
      var offset := FillBuffer(data, all);
      while offset + size <= |data|
        invariant 0 <= offset <= |data|
        invariant Consistent() && Cutting(done, buffer + data[offset..], all, size)
        invariant |buffer| < size && (buffer == [] || offset == |data|)
        invariant bytesIn == |all|
        decreases |data| - offset
      {
        var end := offset + size;
        ghost var pending := buffer + data[offset..];
        CuttingStep(done, pending, all, size);
        assert pending[..size] == data[offset..end] && pending[size..] == buffer + data[end..];
        EncodeWindow(data[offset..end]);
        offset := end;
      }
      CuttingEnds(done, buffer + data[offset..], all, size);
      if offset < |data| {
        buffer := buffer + data[offset..];
      } else {
        assert buffer + data[offset..] == buffer;
      }
      fed := all;
    }

    /** Completes a window that was begun earlier. */
    method FillBuffer(data: Bytes, ghost all: Bytes) returns (offset: nat)
      requires Consistent() && |buffer| < opts.windowSize && Cutting(done, buffer + data, all, opts.windowSize)
      modifies this`buffer, this`windowsWritten, this`done, stream, Owned()
      ensures offset <= |data|
      ensures Consistent() && Cutting(done, buffer + data[offset..], all, opts.windowSize)
      ensures |buffer| < opts.windowSize && (buffer == [] || offset == |data|)
    {
      hide WrittenAs, Cut, Left, Cutting, EngineReady, StreamEncoder.Valid, AllBytes;
      var size := opts.windowSize;
      offset := 0;
      assert data[0..] == data;
      if buffer != [] {
        offset := Min(size - |buffer|, |data|);
        ghost var pending := buffer + data;
        buffer := buffer + data[..offset];
        assert pending == buffer + data[offset..];
        if |buffer| == size {
          CuttingStep(done, pending, all, size);
          assert pending[..size] == buffer && pending[size..] == [] + data[offset..];
          EncodeWindow(buffer);
          buffer := [];
        }
      }
    }

    /** Encodes what is left in the buffer. */
    method FlushBuffer()
      requires Valid()
      modifies this`buffer, this`windowsWritten, this`done, stream, Owned()
      ensures Consistent() && done == Windows(fed, opts.windowSize)
    {
      hide WrittenAs, Cut, EngineReady, StreamEncoder.Valid, AllBytes;
      if buffer != [] {
        EncodeWindow(buffer);
        buffer := [];
      }
    }

    /** Flushes the buffer and closes the stream. */
    method Finish() returns (output: Bytes, windows: nat)
      requires Valid()
      modifies this, stream, Owned()
      ensures fed == old(fed) && windows == |Windows(fed, opts.windowSize)|
      ensures output == stream.base + StreamBytes(opts, source, fed)
      ensures Sized(source, Windows(fed, opts.windowSize))
      ensures forall verify ::
                DecodeStream(output[|stream.base|..], source, verify) == Ok(fed)
                <==> AllSafe(opts, source, Windows(fed, opts.windowSize))
    {
      hide WrittenAs, EngineReady, StreamEncoder.Valid, DecodesAs, DecodeStream, EncodeFileHeader, AllBytes;
      hide EmptyBytes, AllSafe, Windows;
      FlushBuffer();
      ghost var encoded := stream.windows;
      if windowsWritten == 0 {
        var empty := EncodeEmpty(opts.checksum, source);
        stream.WriteRawWindow(empty);
        assert stream.windows == [empty];
      }
      windows := windowsWritten;
      output := stream.Finish();
      assert output[|stream.base|..] == EncodeFileHeader(DEFAULT_FILE_HEADER) + Concat(stream.windows);
      forall verify: bool
        ensures DecodeStream(output[|stream.base|..], source, verify) == Ok(fed) <==> AllSafe(opts, source, done)
      {
        ClosedExact(opts, source, fed, encoded, stream.windows, verify);
      }
    }
  }

  /** A whole target in pieces: the bytes written do not depend on how it was split. */
  method EncodePieces(output: Bytes, source: Bytes, pieces: seq<Bytes>, opts: Options) returns (result: Bytes)
    requires ValidOptions(opts) && |source| <= MAX_SLICE
    ensures result == output + StreamBytes(opts, source, Concat(pieces))
  {
    hide DeltaEncoder.Valid, StreamBytes, AllSafe, DecodeStream;
    var enc := new DeltaEncoder(output, source, opts);
    assert pieces[..0] == [];
    for k := 0 to |pieces|
      invariant enc.Valid() && fresh(enc) && fresh(enc.stream) && fresh(enc.Observed())
      invariant enc.opts == opts && enc.source == source && enc.stream.base == output
      invariant enc.fed == Concat(pieces[..k])
    {
      assert pieces[..k + 1] == pieces[..k] + [pieces[k]];
      ConcatSnoc(pieces[..k], pieces[k]);
      enc.WriteTarget(pieces[k]);
    }
    assert pieces[..|pieces|] == pieces;
    var windows;
    result, windows := enc.Finish();
  }

  /** The options with the window size cut down for a short target. */
  function Capped(opts: Options, target: Bytes): Options {
    if |target| < opts.windowSize then opts.(windowSize := if |target| < 64 then 64 else |target|) else opts
  }

  lemma CappedWindows(opts: Options, target: Bytes)
    requires opts.windowSize > 0
    ensures Capped(opts, target).windowSize > 0
    ensures Windows(target, Capped(opts, target).windowSize) == Windows(target, opts.windowSize)
  {
    if |target| < opts.windowSize {
      WindowsOfShort(target, Capped(opts, target).windowSize, opts.windowSize);
    }
  }

  /** Encodes a whole target at once, with tables for one window if it is short; the windows stay the same. */
  method EncodeAll(output: Bytes, source: Bytes, target: Bytes, opts: Options) returns (result: Bytes)
    requires opts.windowSize > 0 && ValidOptions(Capped(opts, target)) && |source| <= MAX_SLICE
    ensures result == output + StreamBytes(Capped(opts, target), source, target)
    ensures Sized(source, Windows(target, opts.windowSize))
    ensures forall verify ::
              DecodeStream(result[|output|..], source, verify) == Ok(target)
              <==> AllSafe(Capped(opts, target), source, Windows(target, opts.windowSize))
  {
    hide DecodeStream, DeltaEncoder.Valid, Safe, StreamBytes, Windows, AllSafe;
    CappedWindows(opts, target);
    var enc := new DeltaEncoder(output, source, Capped(opts, target));
    enc.WriteTarget(target);
    var windows;
    result, windows := enc.Finish();
    assert [] + target == target;
  }
}
