/** One-call encoding of a target against a source. */
module Engine {
  import opened Base
  import opened Instructions
  import opened Headers
  import opened Matching
  import opened Overlap
  import opened MatchEngines
  import opened Emission
  import opened Streams
  import opened Windowing

  lemma GoodEmittable(source: Bytes, win: Bytes, insts: seq<Inst>)
    requires Good(source, win, insts, 0) && |win| < U32_BOUND && |source| <= MAX_SLICE
    ensures Emittable(insts, |source|, |win|)
  {
    hide LooksBack, Explains;
    ExplainsLen(source, win, insts, 0);
    ExplainsLooksBack(source, win, insts, 0);
  }

  /** What a new engine with these tables finds for one window. */
  ghost function Found(source: Bytes, win: Bytes, level: nat, hashes: Hashes): seq<Inst> {
    Search(EnvOf(ConfigForLevel(level), hashes, win, SourceOption(source)), 0)
  }

  lemma FoundGood(source: Bytes, win: Bytes, level: nat, hashes: Hashes)
    requires |win| < U32_BOUND && |source| <= MAX_SLICE
    ensures Good(source, win, Found(source, win, level, hashes), 0)
    ensures TotalLen(Found(source, win, level, hashes)) == |win|
  {
    hide Search, Explains, Accepted;
    var env := EnvOf(ConfigForLevel(level), hashes, win, SourceOption(source));
    assert SourceOf(env) == source;
    SearchGood(env, 0);
    ExplainsLen(source, win, Found(source, win, level, hashes), 0);
  }

  /** A window the source begins with is found as one COPY, on every level and with any tables. */
  lemma PrefixFound(source: Bytes, win: Bytes, level: nat, hashes: Hashes)
    requires MIN_MATCH <= |win| && |source| <= MAX_SLICE && win <= source
    ensures Found(source, win, level, hashes) == [Copy(|win|, 0, 0)]
  {
    hide Search;
    PrefixCopied(EnvOf(ConfigForLevel(level), hashes, win, SourceOption(source)), 0);
  }

  /** Finds the instructions for one window with a new engine. */
  method FindForWindow(level: nat, source: Bytes, win: Bytes, hashes: Hashes) returns (insts: seq<Inst>)
    requires ValidHashes(hashes) && |win| < U32_BOUND && |source| <= MAX_SLICE
    ensures insts == Found(source, win, level, hashes)
    ensures Good(source, win, insts, 0)
  {
    hide Good, Search, NextSrcPos;
    var engine := new MatchEngine(ConfigForLevel(level), hashes);
    if source == [] {
      insts := engine.FindMatches(win, None);
    } else {
      engine.IndexSource(source);
      insts := engine.FindMatches(win, Some(source));
    }
  }

  /** A window decodes to itself unless it is over the hard limit. */
  function Limited(win: Bytes): Result<Bytes> {
    if |win| <= HARD_MAX_WINSIZE then Ok(win) else Err(Io)
  }

  /** The bytes of one window. */
  ghost function OneBytes(source: Bytes, win: Bytes, level: nat, checksum: bool, hashes: Hashes): Bytes
    requires |win| < U32_BOUND && |source| <= MAX_SLICE
  {
    FoundGood(source, win, level, hashes);
    WindowBytes(source, win, Found(source, win, level, hashes), checksum)
  }

  /** Finds and encodes one window: it decodes to itself unless it is over the hard limit. */
  method EncodeOne(level: nat, source: Bytes, win: Bytes, checksum: bool, hashes: Hashes) returns (encoded: Bytes)
    requires ValidHashes(hashes) && |win| < U32_BOUND && |source| <= MAX_SLICE
    ensures encoded == OneBytes(source, win, level, checksum, hashes)
    ensures forall verify :: DecodesAs(encoded, source, verify, Limited(win))
  {
    hide DecodesAs, Outcome, Emittable, Explains, Accepted, Found, WindowBytes;
    var insts := FindForWindow(level, source, win, hashes);
    GoodEmittable(source, win, insts);
    encoded := EncodeWindow(source, win, insts, checksum);
    ExplainsLen(source, win, insts, 0);
    forall verify: bool
      ensures DecodesAs(encoded, source, verify, Limited(win))
    {
      WindowExact(source, win, insts, checksum, verify);
    }
  }

  ghost predicate SmallEnough(ws: seq<Bytes>) {
    forall i :: 0 <= i < |ws| ==> |ws[i]| < U32_BOUND
  }

  /** The bytes of each window, with the tables its length asks for. */
  ghost function AllBytes(source: Bytes, ws: seq<Bytes>, level: nat, checksum: bool, hashes: nat -> Hashes): seq<Bytes>
    requires SmallEnough(ws) && |source| <= MAX_SLICE
  {
    seq(|ws|, i requires 0 <= i < |ws| => OneBytes(source, ws[i], level, checksum, hashes(|ws[i]|)))
  }

  lemma AllBytesSnoc(source: Bytes, ws: seq<Bytes>, w: Bytes, level: nat, checksum: bool, hashes: nat -> Hashes)
    requires SmallEnough(ws) && |w| < U32_BOUND && |source| <= MAX_SLICE
    ensures SmallEnough(ws + [w])
    ensures AllBytes(source, ws + [w], level, checksum, hashes)
         == AllBytes(source, ws, level, checksum, hashes) + [OneBytes(source, w, level, checksum, hashes(|w|))]
  {
    hide OneBytes;
  }

  /** The whole stream for a target. */
  ghost function StreamBytes(source: Bytes, target: Bytes, level: nat, windowSize: nat, checksum: bool,
                             hashes: nat -> Hashes): Bytes
    requires 0 < windowSize && Min(windowSize, |target|) < U32_BOUND && |source| <= MAX_SLICE
  {
    WindowsSmall(target, windowSize);
    var ws := Windows(target, windowSize);
    EncodeFileHeader(DEFAULT_FILE_HEADER)
    + Concat(if ws == [] then [EmptyBytes(checksum)] else AllBytes(source, ws, level, checksum, hashes))
  }

  lemma WindowsSmall(target: Bytes, size: nat)
    requires 0 < size && Min(size, |target|) < U32_BOUND
    ensures SmallEnough(Windows(target, size))
    ensures Windows(target, size) == [] <==> target == []
  {
    hide Windows;
    forall i | 0 <= i < |Windows(target, size)|
      ensures |Windows(target, size)[i]| < U32_BOUND
    {
      WindowAt(target, size, i);
    }
    if target == [] {
      NoWindows(size);
    } else {
      WindowsStep(target, size);
    }
  }

  /** The windows encoded so far and those still to come are all windows; what is there decodes to what was read. */
  ghost predicate Progress(target: Bytes, size: nat, offset: nat, done: seq<Bytes>, xs: seq<Result<Bytes>>)
    requires size > 0 && offset <= |target|
  {
    && done + Windows(target[offset..], size) == Windows(target, size)
    && (offset == 0 ==> xs == [])
    && (Min(size, |target|) <= HARD_MAX_WINSIZE ==> Combine(xs) == Ok(target[..offset]))
    && (Min(size, |target|) > HARD_MAX_WINSIZE && offset > 0 ==> Combine(xs) == Err(Io))
  }

  lemma ProgressStep(target: Bytes, size: nat, offset: nat, done: seq<Bytes>, xs: seq<Result<Bytes>>)
    requires size > 0 && offset < |target| && Progress(target, size, offset, done, xs)
    ensures var end := Min(offset + size, |target|);
            var win := target[offset..end];
            Progress(target, size, end, done + [win], xs + [Limited(win)])
  {
    hide Windows, Combine;
    var end := Min(offset + size, |target|);
    var win, rest := target[offset..end], target[offset..];
    WindowsStep(rest, size);
    assert rest[..end - offset] == win && rest[end - offset..] == target[end..];
    var more := Windows(target[end..], size);
    assert done + ([win] + more) == (done + [win]) + more;
    CombineSnoc(xs, Limited(win));
    NothingCombined();
    assert target[..offset] + win == target[..end];
  }

  lemma NothingCombined()
    ensures Combine([]) == Ok([])
  {
  }

  lemma ProgressStarts(target: Bytes, size: nat)
    requires size > 0
    ensures Progress(target, size, 0, [], [])
  {
    hide Windows;
    assert target[0..] == target && [] + Windows(target, size) == Windows(target, size);
    assert target[..0] == [];
  }

  lemma ProgressEnds(target: Bytes, size: nat, done: seq<Bytes>, xs: seq<Result<Bytes>>)
    requires size > 0 && Progress(target, size, |target|, done, xs)
    ensures done == Windows(target, size)
    ensures target != [] ==> Combine(xs) == if Min(size, |target|) <= HARD_MAX_WINSIZE then Ok(target) else Err(Io)
    ensures target == [] ==> done == [] && xs == []
  {
    hide Windows, Combine;
    assert target[|target|..] == [] && target[..|target|] == target;
    NoWindows(size);
    assert done + [] == done;
  }

  /**
    Encodes a target in windows and appends the stream to `output`: the bytes are
    those of the instructions found for each window. Decoding the stream gives back
    exactly the target, whatever the source, the level, the hash functions and
    tables (chosen by window length) and the window size, as long as no window is
    over the decoder's limit; otherwise decoding fails.
    */
  method EncodeWithOptions(source: Bytes, target: Bytes, output: Bytes, level: nat, windowSize: nat, checksum: bool,
                           hashes: nat -> Hashes) returns (result: Bytes)
    requires 0 < windowSize && forall n :: ValidHashes(hashes(n))
    requires Min(windowSize, |target|) < U32_BOUND && |source| <= MAX_SLICE
    ensures result == output + StreamBytes(source, target, level, windowSize, checksum, hashes)
    ensures forall verify :: DecodeStream(result[|output|..], source, verify)
                             == if Min(windowSize, |target|) <= HARD_MAX_WINSIZE then Ok(target) else Err(Io)
  {
    hide DecodesAs, Written, DecodeStream, EncodeFileHeader, Windows, Progress, OneBytes, AllBytes, EmptyBytes, Combine;
    var stream := new StreamEncoder(output);
    ghost var xs: seq<Result<Bytes>> := [];
    ghost var done: seq<Bytes> := [];
    NoneWritten(source);
    NoBytes(source, level, checksum, hashes);
    ProgressStarts(target, windowSize);
    var offset := 0;
    while offset < |target|
      invariant 0 <= offset <= |target|
      invariant stream.Valid() && fresh(stream) && stream.base == output && stream.fileHeader == DEFAULT_FILE_HEADER
      invariant Written(stream.windows, xs, source) && Progress(target, windowSize, offset, done, xs)
      invariant SmallEnough(done) && stream.windows == AllBytes(source, done, level, checksum, hashes)
      decreases |target| - offset
    {
      var end := Min(offset + windowSize, |target|);
      var win := target[offset..end];
      var encoded := EncodeOne(level, source, win, checksum, hashes(|win|));
      WrittenSnoc(stream.windows, xs, source, encoded, Limited(win));
      AllBytesSnoc(source, done, win, level, checksum, hashes);
      ProgressStep(target, windowSize, offset, done, xs);
      stream.WriteRawWindow(encoded);
      xs, done := xs + [Limited(win)], done + [win];
      offset := end;
    }
    ProgressEnds(target, windowSize, done, xs);
    WindowsSmall(target, windowSize);
    if target == [] {
      var encoded := EncodeEmpty(checksum, source);
      WrittenSnoc(stream.windows, xs, source, encoded, Ok([]));
      OneCombined(xs, target);
      stream.WriteRawWindow(encoded);
      xs := xs + [Ok([])];
      assert stream.windows == [EmptyBytes(checksum)];
    }
    result := stream.Finish();
    assert result[|output|..] == EncodeFileHeader(DEFAULT_FILE_HEADER) + Concat(stream.windows);
    forall verify: bool
      ensures DecodeStream(result[|output|..], source, verify) == Combine(xs)
    {
      FinishedStream(stream.windows, xs, source, verify);
    }
  }

  lemma NoBytes(source: Bytes, level: nat, checksum: bool, hashes: nat -> Hashes)
    requires |source| <= MAX_SLICE
    ensures SmallEnough([]) && AllBytes(source, [], level, checksum, hashes) == []
  {
  }

  lemma OneCombined(xs: seq<Result<Bytes>>, target: Bytes)
    requires xs == [] && target == []
    ensures Combine(xs + [Ok([])]) == Ok(target)
  {
    CombineSnoc(xs, Ok([]));
    assert [] + [] == target;
  }

  /** Decoding what was encoded gives the target back. */
  method RoundTrip(source: Bytes, target: Bytes, level: nat, windowSize: nat, checksum: bool, hashes: nat -> Hashes)
    returns (delta: Bytes, decoded: Result<Bytes>)
    requires 0 < windowSize <= HARD_MAX_WINSIZE && |source| <= MAX_SLICE && forall n :: ValidHashes(hashes(n))
    ensures decoded == Ok(target)
  {
    hide DecodeStream;
    delta := EncodeWithOptions(source, target, [], level, windowSize, checksum, hashes);
    assert delta[0..] == delta;
    decoded := DecodeMemory(delta, source);
  }
}
