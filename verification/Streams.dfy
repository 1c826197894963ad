/** Whole delta streams: a file header and windows. */
module Streams {
  import opened Base
  import opened Addressing
  import opened Headers
  import opened Decoder
  import opened Encoder
  import opened Instructions
  import opened Sections

  // ---------------------------------------------------------------------
  // Reference decoding
  // ---------------------------------------------------------------------

  /** The three sections in front of a stream. */
  function ReadSections(h: WindowHeader, r: Bytes): (x: Result<(Bytes, Bytes, Bytes, Bytes)>)
    ensures x.Ok? ==> |x.value.3| <= |r|
  {
    var (data, r1) :- ReadBytes(r, h.dataLen);
    var (inst, r2) :- ReadBytes(r1, h.instLen);
    var (addr, r3) :- ReadBytes(r2, h.addrLen);
    Ok((data, inst, addr, r3))
  }

  /** The next window: its target bytes and the rest of the stream; none at the end. */
  function ReadWindow(r: Bytes, source: Bytes, verify: bool): (x: Result<Option<(Bytes, Bytes)>>)
    ensures x.Ok? && x.value.Some? ==> |x.value.value.1| < |r|
  {
    var wh :- DecodeWindowHeader(r);
    match wh
    case None => Ok(None)
    case Some((h, r1)) =>
      if Bit(h.winInd, 1) then Err(Unsupported)
      else
        var (data, inst, addr, rest) :- ReadSections(h, r1);
        if h.delInd != 0 then Err(Unsupported)
        else
          var out :- DecodeSections(h, data, inst, addr, source, verify);
          Ok(Some((out, rest)))
  }

  /**
    Whatever decodes as a window has a consistent header that announces neither a
    target segment nor compressed sections, and gives the announced bytes.
    */
  lemma WindowAccepted(r: Bytes, source: Bytes, verify: bool)
    requires ReadWindow(r, source, verify).Ok? && ReadWindow(r, source, verify).value.Some?
    ensures DecodeWindowHeader(r).Ok? && DecodeWindowHeader(r).value.Some?
    ensures var h := DecodeWindowHeader(r).value.value.0;
            var out := ReadWindow(r, source, verify).value.value.0;
            && !Bit(h.winInd, 1) && h.delInd == 0 && h.encLen == ComputeEncLen(h)
            && |out| == h.targetWindowLen <= HARD_MAX_WINSIZE
            && (verify && h.adler32.Some? ==> Checksum.Adler32(out) == h.adler32.value)
  {
    hide DecodeWindowHeader, ReadSections, DecodeSections, ComputeEncLen, Checksum.Adler32;
    WindowHeaderAccepted(r);
    var (h, r1) := DecodeWindowHeader(r).value.value;
    var (data, inst, addr, rest) := ReadSections(h, r1).value;
    DecodesIff(h, data, inst, addr, source, verify, ReadWindow(r, source, verify).value.value.0);
  }

  /** All remaining windows, each decoded on its own, put one behind the other. */
  function DecodeWindows(r: Bytes, source: Bytes, verify: bool): Result<Bytes>
    decreases |r|
  {
    var win :- ReadWindow(r, source, verify);
    match win
    case None => Ok([])
    case Some((out, rest)) =>
      var more :- DecodeWindows(rest, source, verify);
      Ok(out + more)
  }

  function DecodeStream(delta: Bytes, source: Bytes, verify: bool): Result<Bytes> {
    var (_, r) :- DecodeFileHeader(delta);
    DecodeWindows(r, source, verify)
  }

  // ---------------------------------------------------------------------
  // The stream decoder
  // ---------------------------------------------------------------------

  class StreamDecoder {
    /** What has not been read yet. */
    var reader: Bytes
    var fileHeader: Option<FileHeader>
    const verifyChecksum: bool
    const acache: AddressCache

    ghost predicate Valid()
      reads this, acache, acache.near, acache.same
    {
      StdShape(acache)
    }

    /** The bytes behind the file header. */
    ghost function Windows(): Result<Bytes>
      reads this
    {
      if fileHeader.Some? then Ok(reader)
      else
        var (_, r) :- DecodeFileHeader(reader);
        Ok(r)
    }

    constructor (delta: Bytes, verify: bool)
      ensures Valid() && fresh(acache) && fresh(acache.near) && fresh(acache.same)
      ensures reader == delta && fileHeader == None && verifyChecksum == verify
    {
      reader := delta;
      fileHeader := None;
      verifyChecksum := verify;
      acache := new AddressCache(4, 3);
    }

    /** Decodes the next window behind `output`; false when there is none. */
    method DecodeWindow(source: Bytes, output: Bytes) returns (r: Result<bool>, result: Bytes)
      requires Valid()
      modifies this, acache, acache.near, acache.same
      ensures Valid()
      ensures output <= result
      ensures old(Windows()).Err? ==> r == Err(old(Windows()).error)
      ensures old(Windows()).Ok? ==>
                var x := ReadWindow(old(Windows()).value, source, verifyChecksum);
                && (x.Err? ==> r == Err(x.error))
                && (x.Ok? && x.value.None? ==> r == Ok(false) && result == output)
                && (x.Ok? && x.value.Some? ==>
                      && r == Ok(true)
                      && result == output + x.value.value.0
                      && Windows() == Ok(x.value.value.1))
    {
      hide DecodeWindowHeader, DecodeSections, ReadSections;
      result := output;
      if fileHeader.None? {
        var hdr := DecodeFileHeader(reader);
        if hdr.Err? {
          return Err(hdr.error), result;
        }
        fileHeader, reader := Some(hdr.value.0), hdr.value.1;
      }
      var wh := DecodeWindowHeader(reader);
      if wh.Err? {
        return Err(wh.error), result;
      }
      if wh.value.None? {
        return Ok(false), result;
      }
      var h := wh.value.value.0;
      reader := wh.value.value.1;
      if Bit(h.winInd, 1) {
        return Err(Unsupported), result;
      }
      var sections := ReadSections(h, reader);
      if sections.Err? {
        return Err(sections.error), result;
      }
      var (data, inst, addr, rest) := sections.value;
      reader := rest;
      if h.delInd != 0 {
        return Err(Unsupported), result;
      }
      var ok;
      ghost var executed;
      ok, result, executed := DecodeWindowWithCache(h, data, inst, addr, source, verifyChecksum, output, acache);
      if ok.Err? {
        return Err(ok.error), result;
      }
      r := Ok(true);
    }

    /** What is left to decode, by the reference. */
    ghost function Outcome(source: Bytes): Result<Bytes>
      reads this
    {
      var r :- Windows();
      DecodeWindows(r, source, verifyChecksum)
    }

    /** Decodes all remaining windows into one growing buffer. */
    method DecodeAll(source: Bytes, output: Bytes) returns (r: Result<()>, result: Bytes)
      requires Valid()
      modifies this, acache, acache.near, acache.same
      ensures Valid()
      ensures output <= result
      ensures match old(Outcome(source))
              case Err(e) => r == Err(e)
              case Ok(all) => r == Ok(()) && result == output + all
    {
      hide ReadWindow, DecodeFileHeader;
      result := output;
      ghost var goal := Outcome(source);
      ghost var done: Bytes := [];
      assert goal.Ok? ==> [] + goal.value == goal.value;
      while true
        invariant Valid()
        invariant result == output + done
        invariant goal == Behind(done, Outcome(source))
        decreases if Windows().Ok? then |Windows().value| else 0
      {
        ghost var out := WindowAhead(source);
        var more;
        more, result := DecodeWindow(source, result);
        if more.Err? {
          return Err(more.error), result;
        }
        if !more.value {
          assert done + [] == done;
          return Ok(()), result;
        }
        BehindTwice(done, out, Outcome(source));
        done := done + out;
      }
    }

    /** The window about to be decoded. */
    ghost function WindowAhead(source: Bytes): Bytes
      reads this
    {
      if Windows().Err? then []
      else
        match ReadWindow(Windows().value, source, verifyChecksum)
        case Ok(Some((out, _))) => out
        case _ => []
    }
  }

  function Behind(done: Bytes, rest: Result<Bytes>): Result<Bytes> {
    if rest.Err? then rest else Ok(done + rest.value)
  }

  lemma BehindTwice(a: Bytes, b: Bytes, rest: Result<Bytes>)
    ensures Behind(a, Behind(b, rest)) == Behind(a + b, rest)
  {
    if rest.Ok? {
      assert a + (b + rest.value) == (a + b) + rest.value;
    }
  }

  /** Decodes a delta held in memory. */
  method DecodeMemory(delta: Bytes, source: Bytes) returns (r: Result<Bytes>)
    ensures r == DecodeStream(delta, source, true)
  {
    hide DecodeFileHeader, DecodeWindows;
    var decoder := new StreamDecoder(delta, true);
    ghost var outcome := decoder.Outcome(source);
    assert outcome == DecodeStream(delta, source, true);
    var ok, output := decoder.DecodeAll(source, []);
    if ok.Err? {
      return Err(ok.error);
    }
    assert [] + outcome.value == outcome.value;
    return Ok(output);
  }

  // ---------------------------------------------------------------------
  // Decoding window by window
  // ---------------------------------------------------------------------

  class DeltaDecoder {
    const inner: StreamDecoder
    var bytesDecoded: nat
    var windowsDecoded: nat
    var windowBuf: Bytes

    ghost predicate Valid()
      reads this, inner, inner.acache, inner.acache.near, inner.acache.same
    {
      inner.Valid()
    }

    constructor (delta: Bytes, verify: bool)
      ensures Valid() && fresh(inner) && fresh(inner.acache) && fresh(inner.acache.near) && fresh(inner.acache.same)
      ensures inner.reader == delta && inner.fileHeader == None && inner.verifyChecksum == verify
      ensures bytesDecoded == 0 && windowsDecoded == 0
    {
      inner := new StreamDecoder(delta, verify);
      bytesDecoded, windowsDecoded := 0, 0;
      windowBuf := [];
    }

    /** Decodes the next window into the cleared buffer and writes it out. */
    method DecodeWindowTo(source: Bytes, writer: Bytes) returns (r: Result<Option<nat>>, written: Bytes)
      requires Valid()
      modifies this, inner, inner.acache, inner.acache.near, inner.acache.same
      ensures Valid()
      ensures old(inner.Windows()).Err? ==> r == Err(old(inner.Windows()).error)
      ensures old(inner.Windows()).Ok? ==>
                var x := ReadWindow(old(inner.Windows()).value, source, inner.verifyChecksum);
                && (x.Err? ==> r == Err(x.error))
                && (x.Ok? && x.value.None? ==>
                      && r == Ok(None)
                      && written == writer
                      && bytesDecoded == old(bytesDecoded)
                      && windowsDecoded == old(windowsDecoded))
                && (x.Ok? && x.value.Some? ==>
                      && r == Ok(Some(|x.value.value.0|))
                      && written == writer + x.value.value.0
                      && bytesDecoded == old(bytesDecoded) + |x.value.value.0|
                      && windowsDecoded == old(windowsDecoded) + 1
                      && inner.Windows() == Ok(x.value.value.1))
    {
      hide ReadWindow, DecodeFileHeader;
      windowBuf := [];
      written := writer;
      var more;
      more, windowBuf := inner.DecodeWindow(source, []);
      if more.Err? {
        return Err(more.error), written;
      }
      if !more.value {
        return Ok(None), written;
      }
      ghost var out := ReadWindow(old(inner.Windows()).value, source, inner.verifyChecksum).value.value.0;
      assert [] + out == out;
      written := writer + windowBuf;
      bytesDecoded := bytesDecoded + |windowBuf|;
      windowsDecoded := windowsDecoded + 1;
      r := Ok(Some(|windowBuf|));
    }

    /** Decodes all windows, each in a fresh buffer: the same bytes as decoding into one buffer. */
    method DecodeTo(source: Bytes, writer: Bytes) returns (r: Result<nat>, written: Bytes)
      requires Valid()
      modifies this, inner, inner.acache, inner.acache.near, inner.acache.same
      ensures Valid()
      ensures match old(inner.Outcome(source))
              case Err(e) => r == Err(e)
              case Ok(all) => r == Ok(old(bytesDecoded) + |all|) && written == writer + all
    {
      hide ReadWindow, DecodeFileHeader;
      written := writer;
      ghost var goal := inner.Outcome(source);
      ghost var done: Bytes := [];
      assert goal.Ok? ==> [] + goal.value == goal.value;
      while true
        invariant Valid()
        invariant written == writer + done && bytesDecoded == old(bytesDecoded) + |done|
        invariant goal == Behind(done, inner.Outcome(source))
        decreases if inner.Windows().Ok? then |inner.Windows().value| else 0
      {
        ghost var out := inner.WindowAhead(source);
        var more;
        more, written := DecodeWindowTo(source, written);
        if more.Err? {
          return Err(more.error), written;
        }
        if more.value.None? {
          assert done + [] == done;
          return Ok(bytesDecoded), written;
        }
        BehindTwice(done, out, inner.Outcome(source));
        done := done + out;
      }
    }
  }

  // ---------------------------------------------------------------------
  // What encoded windows decode to
  // ---------------------------------------------------------------------

  /** The outcome of decoding a window whose sections mean `ops`. */
  function WindowOutcome(s: WindowSections, ops: seq<Op>, source: Bytes, verify: bool): Result<Bytes> {
    if s.targetLen > HARD_MAX_WINSIZE then Err(Io)
    else Verified(HeaderOf(s, 0), Replay(WindowOf(HeaderOf(s, 0), source), [], ops), verify)
  }

  /** Reading one window with outcome `x`, `rest` being behind it. */
  function Taken(x: Result<Bytes>, rest: Bytes): Result<Option<(Bytes, Bytes)>> {
    if x.Err? then Err(x.error) else Ok(Some((x.value, rest)))
  }

  /** In any stream, the bytes of the window give this outcome and are used up. */
  ghost predicate DecodesAs(w: Bytes, source: Bytes, verify: bool, x: Result<Bytes>) {
    forall rest: Bytes :: ReadWindow(w + rest, source, verify) == Taken(x, rest)
  }

  lemma SectionsBack(s: WindowSections, rest: Bytes)
    ensures ReadSections(HeaderOf(s, 0), s.data + (s.inst + (s.addr + rest))) == Ok((s.data, s.inst, s.addr, rest))
  {
    hide ReadBytes, ComputeEncLen;
    ReadBytesBack(s.data, s.inst + (s.addr + rest));
    ReadBytesBack(s.inst, s.addr + rest);
    ReadBytesBack(s.addr, rest);
  }

  lemma EncodedSections(s: WindowSections, ops: seq<Op>, source: Bytes, verify: bool)
    requires Encodes(s, ops)
    ensures DecodeSections(HeaderOf(s, 0), s.data, s.inst, s.addr, source, verify)
         == Verified(HeaderOf(s, 0), Replay(WindowOf(HeaderOf(s, 0), source), [], ops), verify)
  {
    hide Parse, Bind, Replay, Verified, ComputeEncLen;
    var insts :| Recorded(s, insts, ops);
  }

  /** An assembled window decodes to the replay of its operations, whatever follows it. */
  lemma AssembledDecodes(s: WindowSections, ops: seq<Op>, source: Bytes, verify: bool)
    requires FitsHeader(s) && Encodes(s, ops)
    ensures DecodesAs(Assemble(s, 0), source, verify, WindowOutcome(s, ops, source, verify))
  {
    hide DecodeWindowHeader, ReadSections, DecodeSections, Assemble, Replay, Verified, Encodes;
    EncodedSections(s, ops, source, verify);
    forall rest: Bytes
      ensures ReadWindow(Assemble(s, 0) + rest, source, verify) == Taken(WindowOutcome(s, ops, source, verify), rest)
    {
      AssembleRead(s, 0, rest);
      SectionsBack(s, rest);
    }
  }

  function Concat(parts: seq<Bytes>): Bytes {
    if parts == [] then [] else parts[0] + Concat(parts[1..])
  }

  /** The first failure, or all results put together. */
  function Combine(xs: seq<Result<Bytes>>): Result<Bytes> {
    if xs == [] then Ok([])
    else
      var first :- xs[0];
      var more :- Combine(xs[1..]);
      Ok(first + more)
  }

  lemma {:induction false} CombineSnoc(xs: seq<Result<Bytes>>, x: Result<Bytes>)
    ensures Combine(xs + [x]) == if Combine(xs).Err? then Combine(xs) else Behind(Combine(xs).value, x)
    decreases |xs|
  {
    if xs == [] {
      assert [x][1..] == [];
      assert [] + [x] == [x];
      if x.Ok? {
        assert x.value + [] == [] + x.value;
      }
    } else {
      assert (xs + [x])[1..] == xs[1..] + [x];
      CombineSnoc(xs[1..], x);
      if xs[0].Ok? && Combine(xs[1..]).Ok? && x.Ok? {
        assert xs[0].value + (Combine(xs[1..]).value + x.value) == (xs[0].value + Combine(xs[1..]).value) + x.value;
      }
    }
  }

  /** A stream of windows decodes to the combination of their outcomes. */
  lemma {:induction false} WindowsDecode(ws: seq<Bytes>, xs: seq<Result<Bytes>>, source: Bytes, verify: bool)
    requires |ws| == |xs|
    requires forall i :: 0 <= i < |ws| ==> DecodesAs(ws[i], source, verify, xs[i])
    ensures DecodeWindows(Concat(ws), source, verify) == Combine(xs)
    decreases |ws|
  {
    hide DecodesAs;
    if ws == [] {
      NoWindow(source, verify);
    } else {
      WindowsDecode(ws[1..], xs[1..], source, verify);
      FirstWindow(ws[0], Concat(ws[1..]), xs[0], source, verify);
    }
  }

  lemma NoWindow(source: Bytes, verify: bool)
    ensures DecodeWindows([], source, verify) == Ok([])
  {
  }

  lemma FirstWindow(w: Bytes, rest: Bytes, x: Result<Bytes>, source: Bytes, verify: bool)
    requires DecodesAs(w, source, verify, x)
    ensures DecodeWindows(w + rest, source, verify)
         == if x.Err? then x else Behind(x.value, DecodeWindows(rest, source, verify))
  {
    hide ReadWindow;
    assert ReadWindow(w + rest, source, verify) == Taken(x, rest);
  }

  // ---------------------------------------------------------------------
  // The stream encoder
  // ---------------------------------------------------------------------

  class StreamEncoder {
    var writer: Bytes
    var headerWritten: bool
    const fileHeader: FileHeader

    /** What the writer held at first, and the windows written since. */
    ghost const base: Bytes
    ghost var windows: seq<Bytes>

    ghost predicate Valid()
      reads this
    {
      if headerWritten then writer == base + (EncodeFileHeader(fileHeader) + Concat(windows))
      else writer == base && windows == []
    }

    constructor (output: Bytes)
      ensures Valid() && windows == [] && base == output && fileHeader == DEFAULT_FILE_HEADER
    {
      writer := output;
      headerWritten := false;
      fileHeader := DEFAULT_FILE_HEADER;
      base := output;
      windows := [];
    }

    /** Writes an assembled window, with the file header in front of the first one. */
    method WriteRawWindow(encoded: Bytes)
      requires Valid()
      modifies this
      ensures Valid() && windows == old(windows) + [encoded]
    {
      hide EncodeFileHeader;
      if !headerWritten {
        writer := writer + EncodeFileHeader(fileHeader);
        headerWritten := true;
        assert EncodeFileHeader(fileHeader) + Concat([]) == EncodeFileHeader(fileHeader);
      }
      ConcatSnoc(windows, encoded);
      writer := writer + encoded;
      windows := windows + [encoded];
    }

    method Finish() returns (output: Bytes)
      requires Valid()
      modifies this
      ensures Valid() && windows == old(windows)
      ensures output == base + (EncodeFileHeader(fileHeader) + Concat(windows))
    {
      hide EncodeFileHeader;
      if !headerWritten {
        writer := writer + EncodeFileHeader(fileHeader);
        headerWritten := true;
        assert EncodeFileHeader(fileHeader) + Concat([]) == EncodeFileHeader(fileHeader);
      }
      output := writer;
    }
  }

  lemma {:induction false} ConcatSnoc(parts: seq<Bytes>, last: Bytes)
    ensures Concat(parts + [last]) == Concat(parts) + last
    decreases |parts|
  {
    if parts == [] {
      assert [last][1..] == [];
      assert Concat([last]) == last + [];
    } else {
      assert (parts + [last])[1..] == parts[1..] + [last];
      ConcatSnoc(parts[1..], last);
    }
  }

  /** A finished stream decodes to the combination of what its windows decode to. */
  lemma StreamDecodes(ws: seq<Bytes>, xs: seq<Result<Bytes>>, source: Bytes, verify: bool)
    requires |ws| == |xs|
    requires forall i :: 0 <= i < |ws| ==> DecodesAs(ws[i], source, verify, xs[i])
    ensures DecodeStream(EncodeFileHeader(DEFAULT_FILE_HEADER) + Concat(ws), source, verify) == Combine(xs)
  {
    hide DecodeFileHeader, DecodesAs, EncodeFileHeader;
    FileHeaderRoundTrip(DEFAULT_FILE_HEADER, Concat(ws));
    WindowsDecode(ws, xs, source, verify);
  }
}
