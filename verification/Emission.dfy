/** Writing the instructions for one target window, and what the window then decodes to. */
module Emission {
  import opened Base
  import opened Instructions
  import opened Headers
  import opened Decoder
  import opened Encoder
  import opened Streams
  import Checksum

  /** Longer slices do not exist: their length is a signed 64-bit number. */
  const MAX_SLICE: nat := 0x7FFF_FFFF_FFFF_FFFF

  /** Every COPY starts before the position it is executed at. */
  ghost predicate LooksBack(insts: seq<Inst>, segment: nat, pos: nat)
    decreases |insts|
  {
    insts != [] ==>
      && (insts[0].Copy? ==> insts[0].addr < segment + pos)
      && LooksBack(insts[1..], segment, pos + insts[0].len)
  }

  lemma {:induction false} ExplainsLooksBack(segment: Bytes, target: Bytes, insts: seq<Inst>, pos: nat)
    requires Explains(segment, target, insts, pos)
    ensures LooksBack(insts, |segment|, pos)
    decreases |insts|
  {
    if insts != [] {
      ExplainsLooksBack(segment, target, insts[1..], pos + insts[0].len);
    }
  }

  /** The instructions can be emitted for the window: they cover it and look back only. */
  ghost predicate Emittable(insts: seq<Inst>, segment: nat, n: nat) {
    Positive(insts) && TotalLen(insts) == n && LooksBack(insts, segment, 0) && n < U32_BOUND && segment <= MAX_SLICE
  }

  /** One instruction, with its literals or run byte from the target. */
  method EmitOne(we: WindowEncoder, target: Bytes, inst: Inst, pos: nat)
    requires we.Valid() && we.targetLen == pos
    requires inst.len > 0 && pos + inst.len <= |target| < U32_BOUND && SegmentLen(we.sourceWindow) <= MAX_SLICE
    requires inst.Copy? ==> inst.addr < SegmentLen(we.sourceWindow) + pos
    modifies we, we.acache, we.acache.near, we.acache.same
    ensures we.Valid() && we.targetLen == pos + inst.len
    ensures we.ops == old(we.ops) + [Realise(inst, target, pos)]
  {
    hide WindowEncoder.Valid;
    match inst
    case Add(len) =>
      we.Add(target[pos..pos + len]);
    case Copy(len, addr, _) =>
      we.Copy(len, addr);
    case Run(len) =>
      we.Run(len, target[pos]);
  }

  /** Feeds the instructions to the encoder. */
  method EmitInstructions(we: WindowEncoder, target: Bytes, insts: seq<Inst>)
    requires we.Valid() && we.ops == [] && we.targetLen == 0
    requires Emittable(insts, SegmentLen(we.sourceWindow), |target|)
    modifies we, we.acache, we.acache.near, we.acache.same
    ensures we.Valid() && we.targetLen == |target|
    ensures we.ops == OpsOf(insts, target, 0)
  {
    hide WindowEncoder.Valid, Realise;
    ghost var all := OpsOf(insts, target, 0);
    var pos: nat := 0;
    assert insts[0..] == insts;
    for k := 0 to |insts|
      invariant we.Valid() && we.targetLen == pos
      invariant pos + TotalLen(insts[k..]) == |target|
      invariant LooksBack(insts[k..], SegmentLen(we.sourceWindow), pos)
      invariant we.ops + OpsOf(insts[k..], target, pos) == all
    {
      var inst := insts[k];
      assert insts[k..][1..] == insts[k + 1..];
      ghost var op, rest := Realise(inst, target, pos), OpsOf(insts[k + 1..], target, pos + inst.len);
      assert we.ops + ([op] + rest) == (we.ops + [op]) + rest;
      EmitOne(we, target, inst, pos);
      pos := pos + inst.len;
    }
    assert insts[|insts|..] == [];
    assert we.ops + [] == we.ops;
  }

  /** The copy window announced for a source. */
  function SourceWindowOf(source: Bytes): Option<SourceWindow> {
    if source == [] then None else Some(SourceWindow(|source|, 0))
  }

  /** A source that is empty is none. */
  function SourceOption(source: Bytes): Option<Bytes> {
    if source == [] then None else Some(source)
  }

  /** What a window written for `win` with these instructions decodes to. */
  ghost function Outcome(source: Bytes, win: Bytes, insts: seq<Inst>, checksum: bool, verify: bool): Result<Bytes>
    requires Positive(insts) && TotalLen(insts) == |win|
  {
    if |win| > HARD_MAX_WINSIZE then Err(Io)
    else
      match Replay(Window(source, 0, |source|), [], OpsOf(insts, win, 0))
      case None => Err(InvalidInput)
      case Some(out) =>
        if |out| != |win| then Err(InvalidInput)
        else if verify && checksum && Checksum.Adler32(out) != Checksum.Adler32(win) then
          Err(ChecksumMismatch(Checksum.Adler32(win), Checksum.Adler32(out)))
        else Ok(out)
  }

  /** The bytes of a window, determined by its instructions. */
  ghost function WindowBytes(source: Bytes, win: Bytes, insts: seq<Inst>, checksum: bool): Bytes
    requires Positive(insts) && TotalLen(insts) == |win|
  {
    Assemble(SectionsOf(SourceWindowOf(source), checksum, OpsOf(insts, win, 0), Some(win)), 0)
  }

  /** The bytes of the window of an empty target, which announces no source. */
  ghost function EmptyBytes(checksum: bool): Bytes {
    Assemble(SectionsOf(None, checksum, [], Some([])), 0)
  }

  /** The header fields of a window written for `win`. */
  ghost predicate AnnouncedBy(h: WindowHeader, source: Bytes, win: Bytes, checksum: bool) {
    && h.copyWindowLen == |source| && h.copyWindowOffset == 0
    && (Bit(h.winInd, 0) <==> source != []) && !Bit(h.winInd, 1)
    && h.targetWindowLen == |win| && h.delInd == 0
    && h.adler32 == if checksum then Some(Checksum.Adler32(win)) else None
  }

  /** Read back, the window announces the whole source, the target's length and, if asked for, its checksum. */
  ghost predicate Announces(encoded: Bytes, source: Bytes, win: Bytes, checksum: bool) {
    forall rest: Bytes ::
      var d := DecodeWindowHeader(encoded + rest);
      d.Ok? && d.value.Some? && AnnouncedBy(d.value.value.0, source, win, checksum)
  }

  lemma AssembledAnnounces(s: WindowSections, source: Bytes, win: Bytes, checksum: bool)
    requires FitsHeader(s) && s.sourceWindow == SourceWindowOf(source) && s.targetLen == |win| <= HARD_MAX_WINSIZE
    requires s.checksum == if checksum then Some(Checksum.Adler32(win)) else None
    ensures Announces(Assemble(s, 0), source, win, checksum)
  {
    hide DecodeWindowHeader, Assemble, Checksum.Adler32, ComputeEncLen;
    forall rest: Bytes
      ensures var d := DecodeWindowHeader(Assemble(s, 0) + rest);
              d.Ok? && d.value.Some? && AnnouncedBy(d.value.value.0, source, win, checksum)
    {
      AssembleRead(s, 0, rest);
    }
  }

  /** Encodes one window. */
  method EncodeWindow(source: Bytes, win: Bytes, insts: seq<Inst>, checksum: bool) returns (encoded: Bytes)
    requires Emittable(insts, |source|, |win|)
    ensures encoded == WindowBytes(source, win, insts, checksum)
    ensures |win| <= HARD_MAX_WINSIZE ==> Announces(encoded, source, win, checksum)
    ensures forall verify :: DecodesAs(encoded, source, verify, Outcome(source, win, insts, checksum, verify))
  {
    hide DecodesAs, Outcome, WindowOutcome, Assemble, LooksBack, SectionsOf, Recorded, Announces;
    var we := new WindowEncoder(SourceWindowOf(source), checksum);
    EmitInstructions(we, win, insts);
    var sections := we.FinishSections(Some(win));
    encoded := Assemble(sections, 0);
    if |win| <= HARD_MAX_WINSIZE {
      AssembledAnnounces(sections, source, win, checksum);
    }
    forall verify: bool
      ensures DecodesAs(encoded, source, verify, Outcome(source, win, insts, checksum, verify))
    {
      AssembledDecodes(sections, we.ops, source, verify);
      SameOutcome(sections, source, win, insts, checksum, verify);
    }
  }

  lemma SameOutcome(s: WindowSections, source: Bytes, win: Bytes, insts: seq<Inst>, checksum: bool, verify: bool)
    requires Positive(insts) && TotalLen(insts) == |win|
    requires s.sourceWindow == SourceWindowOf(source) && s.targetLen == |win|
    requires s.checksum == if checksum then Some(Checksum.Adler32(win)) else None
    ensures WindowOutcome(s, OpsOf(insts, win, 0), source, verify) == Outcome(source, win, insts, checksum, verify)
  {
    hide Replay, Checksum.Adler32, ComputeEncLen;
    assert WindowOf(HeaderOf(s, 0), source) == Window(source, 0, |source|);
  }

  /**
    A window decodes to the target it was written for exactly if it is within
    the hard limit, its instructions explain the target and none of them
    crosses the boundary; a window that decodes at all has the right length.
    */
  lemma WindowExact(source: Bytes, win: Bytes, insts: seq<Inst>, checksum: bool, verify: bool)
    requires Positive(insts) && TotalLen(insts) == |win|
    ensures Outcome(source, win, insts, checksum, verify) == Ok(win)
       <==> && |win| <= HARD_MAX_WINSIZE
            && Explains(source, win, insts, 0)
            && Accepted(|source|, insts)
    ensures Outcome(source, win, insts, checksum, verify).Ok? ==>
              |Outcome(source, win, insts, checksum, verify).value| == |win|
    ensures |win| > HARD_MAX_WINSIZE ==> Outcome(source, win, insts, checksum, verify) == Err(Io)
  {
    hide Replay, Explains, Accepted, OpsOf;
    ExplainsIffReplays(Window(source, 0, |source|), win, insts, 0);
    assert win[..0] == [] && source[0..|source|] == source;
  }

  /** The window of an empty target. */
  method EncodeEmpty(checksum: bool, ghost source: Bytes) returns (encoded: Bytes)
    ensures encoded == EmptyBytes(checksum)
    ensures forall verify :: DecodesAs(encoded, source, verify, Ok([]))
  {
    hide DecodesAs, Outcome, WindowOutcome, Assemble, SectionsOf, Recorded;
    var we := new WindowEncoder(None, checksum);
    var sections := we.FinishSections(Some([]));
    encoded := Assemble(sections, 0);
    forall verify: bool
      ensures DecodesAs(encoded, source, verify, Ok([]))
    {
      AssembledDecodes(sections, [], source, verify);
      EmptyOutcome(sections, source, checksum, verify);
    }
  }

  lemma EmptyOutcome(s: WindowSections, source: Bytes, checksum: bool, verify: bool)
    requires s.targetLen == 0
    requires s.checksum == if checksum then Some(Checksum.Adler32([])) else None
    ensures WindowOutcome(s, [], source, verify) == Ok([])
  {
    hide Checksum.Adler32, ComputeEncLen;
  }

  /** Each window written so far decodes to its outcome. */
  ghost predicate Written(windows: seq<Bytes>, xs: seq<Result<Bytes>>, source: Bytes) {
    && |windows| == |xs|
    && forall i, verify :: 0 <= i < |windows| ==> DecodesAs(windows[i], source, verify, xs[i])
  }

  lemma NoneWritten(source: Bytes)
    ensures Written([], [], source)
  {
  }

  lemma WrittenSnoc(windows: seq<Bytes>, xs: seq<Result<Bytes>>, source: Bytes, w: Bytes, x: Result<Bytes>)
    requires Written(windows, xs, source) && forall verify :: DecodesAs(w, source, verify, x)
    ensures Written(windows + [w], xs + [x], source)
  {
    hide DecodesAs;
  }

  lemma FinishedStream(windows: seq<Bytes>, xs: seq<Result<Bytes>>, source: Bytes, verify: bool)
    requires Written(windows, xs, source)
    ensures DecodeStream(EncodeFileHeader(DEFAULT_FILE_HEADER) + Concat(windows), source, verify) == Combine(xs)
  {
    hide DecodesAs, DecodeStream;
    StreamDecodes(windows, xs, source, verify);
  }
}
