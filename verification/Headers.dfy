/** File header and window header, sections 4.1 to 4.3 of RFC 3284. */
module Headers {
  import opened Base
  import Varint

  const MAGIC: Bytes := [0xD6, 0xC3, 0xC4, 0x00]
  const HARD_MAX_WINSIZE := 0x100_0000

  /** Flags are kept in the three low bits of an indicator byte. */
  predicate Bit(flags: nat, k: nat) {
    match k
    case 0 => flags % 2 == 1
    case 1 => flags / 2 % 2 == 1
    case _ => flags / 4 % 2 == 1
  }

  // ---------------------------------------------------------------------
  // Reading from a byte stream: a value and the rest, or an I/O error
  // ---------------------------------------------------------------------

  function ReadByte(r: Bytes): (x: Result<(Byte, Bytes)>)
    ensures x.Ok? ==> |x.value.1| < |r|
  {
    if r == [] then Err(Io) else Ok((r[0], r[1..]))
  }

  function ReadBytes(r: Bytes, n: nat): (x: Result<(Bytes, Bytes)>)
    ensures x.Ok? ==> |x.value.1| <= |r|
  {
    if n <= |r| then Ok((r[..n], r[n..])) else Err(Io)
  }

  function ReadVarint(r: Bytes): (x: Result<(nat, Bytes)>)
    ensures x.Ok? ==> |x.value.1| < |r|
  {
    match Varint.Read(r, U64_BOUND)
    case Got(v, k) => Ok((v, r[k..]))
    case Failed(_) => Err(Io)
  }

  lemma ReadVarintBack(n: nat, rest: Bytes)
    requires n < U64_BOUND
    ensures ReadVarint(Varint.Encode(n) + rest) == Ok((n, rest))
  {
    Varint.ReadEncode(n, rest, U64_BOUND);
  }

  lemma ReadBytesBack(s: Bytes, rest: Bytes)
    ensures ReadBytes(s + rest, |s|) == Ok((s, rest))
  {
  }

  // ---------------------------------------------------------------------
  // File header
  // ---------------------------------------------------------------------

  datatype FileHeader = FileHeader(hdrInd: Byte, secondaryId: Option<Byte>, appHeader: Option<Bytes>)

  const DEFAULT_FILE_HEADER := FileHeader(0, None, None)

  function EncodeFileHeader(h: FileHeader): Bytes {
    MAGIC + [h.hdrInd]
    + (if Bit(h.hdrInd, 0) then [if h.secondaryId.Some? then h.secondaryId.value else 0] else [])
    + (if Bit(h.hdrInd, 2) then
         match h.appHeader
         case Some(data) => Varint.Encode(|data|) + data
         case None => Varint.Encode(0)
       else [])
  }

  function DecodeFileHeader(r: Bytes): Result<(FileHeader, Bytes)> {
    var (magic, r1) :- ReadBytes(r, 4);
    if magic != MAGIC then Err(Io)
    else
      var (hdrInd, r2) :- ReadByte(r1);
      if hdrInd >= 8 then Err(Io)
      else
        var (secondaryId, r3) :- ReadSecondaryId(hdrInd, r2);
        if Bit(hdrInd, 1) then Err(Io)
        else
          var (appHeader, r4) :- ReadAppHeader(hdrInd, r3);
          Ok((FileHeader(hdrInd, secondaryId, appHeader), r4))
  }

  function ReadSecondaryId(hdrInd: Byte, r: Bytes): Result<(Option<Byte>, Bytes)> {
    if Bit(hdrInd, 0) then
      var (id, rest) :- ReadByte(r);
      Ok((Some(id), rest))
    else Ok((None, r))
  }

  function ReadAppHeader(hdrInd: Byte, r: Bytes): Result<(Option<Bytes>, Bytes)> {
    if Bit(hdrInd, 2) then
      var (len, r1) :- ReadVarint(r);
      var (data, r2) :- ReadBytes(r1, len);
      Ok((Some(data), r2))
    else Ok((None, r))
  }

  /** Flags and optional fields agree, and no custom code table is announced. */
  ghost predicate ValidFileHeader(h: FileHeader) {
    && h.hdrInd < 8 && !Bit(h.hdrInd, 1)
    && (Bit(h.hdrInd, 0) <==> h.secondaryId.Some?)
    && (Bit(h.hdrInd, 2) <==> h.appHeader.Some?)
    && (h.appHeader.Some? ==> |h.appHeader.value| < U64_BOUND)
  }

  lemma SecondaryIdBack(hdrInd: Byte, id: Option<Byte>, rest: Bytes)
    requires Bit(hdrInd, 0) <==> id.Some?
    ensures ReadSecondaryId(hdrInd, (if id.Some? then [id.value] else []) + rest) == Ok((id, rest))
  {
    if id.Some? {
      assert ([id.value] + rest)[1..] == rest;
    } else {
      assert [] + rest == rest;
    }
  }

  lemma AppHeaderBack(hdrInd: Byte, app: Option<Bytes>, rest: Bytes)
    requires Bit(hdrInd, 2) <==> app.Some?
    requires app.Some? ==> |app.value| < U64_BOUND
    ensures ReadAppHeader(hdrInd, (if app.Some? then Varint.Encode(|app.value|) + app.value else []) + rest)
         == Ok((app, rest))
  {
    hide ReadVarint, ReadBytes;
    if app.Some? {
      var data := app.value;
      var n := Varint.Encode(|data|);
      assert (n + data) + rest == n + (data + rest);
      ReadVarintBack(|data|, data + rest);
      ReadBytesBack(data, rest);
    } else {
      assert [] + rest == rest;
    }
  }

  /** Decoding a file header gives it back and stops at its end. */
  lemma FileHeaderRoundTrip(h: FileHeader, rest: Bytes)
    requires ValidFileHeader(h)
    ensures DecodeFileHeader(EncodeFileHeader(h) + rest) == Ok((h, rest))
  {
    hide ReadSecondaryId, ReadAppHeader, ReadBytes;
    var id := if h.secondaryId.Some? then [h.secondaryId.value] else [];
    var app := if h.appHeader.Some? then Varint.Encode(|h.appHeader.value|) + h.appHeader.value else [];
    var tail := id + (app + rest);
    assert EncodeFileHeader(h) == MAGIC + [h.hdrInd] + id + app;
    assert EncodeFileHeader(h) + rest == MAGIC + ([h.hdrInd] + tail);
    ReadBytesBack(MAGIC, [h.hdrInd] + tail);
    assert ([h.hdrInd] + tail)[1..] == tail;
    SecondaryIdBack(h.hdrInd, h.secondaryId, app + rest);
    AppHeaderBack(h.hdrInd, h.appHeader, rest);
  }

  // ---------------------------------------------------------------------
  // Window header
  // ---------------------------------------------------------------------

  datatype WindowHeader = WindowHeader(
    winInd: Byte,
    copyWindowLen: nat,
    copyWindowOffset: nat,
    encLen: nat,
    targetWindowLen: nat,
    delInd: Byte,
    dataLen: nat,
    instLen: nat,
    addrLen: nat,
    adler32: Option<nat>)

  predicate HasCopyWindow(winInd: nat) {
    Bit(winInd, 0) || Bit(winInd, 1)
  }

  /** A 32-bit value, most significant byte first. */
  function BigEndian(v: nat): Bytes
    requires v < U32_BOUND
  {
    [v / 256 / 256 / 256, v / 256 / 256 % 256, v / 256 % 256, v % 256]
  }

  function FromBigEndian(s: Bytes): nat
    requires |s| == 4
  {
    (((s[0] as int) * 256 + s[1]) * 256 + s[2]) * 256 + s[3]
  }

  function ComputeEncLen(h: WindowHeader): nat {
    Varint.SizeofU64(h.targetWindowLen) + 1
    + Varint.SizeofU64(h.dataLen) + Varint.SizeofU64(h.instLen) + Varint.SizeofU64(h.addrLen)
    + h.dataLen + h.instLen + h.addrLen
    + (if Bit(h.winInd, 2) then 4 else 0)
  }

  function CopyWindowBytes(h: WindowHeader): Bytes {
    if HasCopyWindow(h.winInd) then Varint.Encode(h.copyWindowLen) + Varint.Encode(h.copyWindowOffset) else []
  }

  /** Everything behind the enc_len field. */
  function LengthBytes(h: WindowHeader): Bytes
    requires h.adler32.Some? ==> h.adler32.value < U32_BOUND
  {
    Varint.Encode(h.targetWindowLen) + [h.delInd]
    + Varint.Encode(h.dataLen) + Varint.Encode(h.instLen) + Varint.Encode(h.addrLen)
    + (if Bit(h.winInd, 2) && h.adler32.Some? then BigEndian(h.adler32.value) else [])
  }

  function EncodeWindowHeader(h: WindowHeader): Bytes
    requires h.adler32.Some? ==> h.adler32.value < U32_BOUND
  {
    [h.winInd] + CopyWindowBytes(h) + Varint.Encode(h.encLen) + LengthBytes(h)
  }

  function ReadCopyWindow(winInd: Byte, r: Bytes): (x: Result<(nat, nat, Bytes)>)
    ensures x.Ok? ==> |x.value.2| <= |r|
  {
    if HasCopyWindow(winInd) then
      var (len, r1) :- ReadVarint(r);
      var (off, r2) :- ReadVarint(r1);
      Ok((len, off, r2))
    else Ok((0, 0, r))
  }

  function ReadChecksum(winInd: Byte, r: Bytes): (x: Result<(Option<nat>, Bytes)>)
    ensures x.Ok? ==> |x.value.1| <= |r|
  {
    if Bit(winInd, 2) then
      var (s, rest) :- ReadBytes(r, 4);
      Ok((Some(FromBigEndian(s)), rest))
    else Ok((None, r))
  }

  datatype Lengths = Lengths(target: nat, delInd: Byte, data: nat, inst: nat, addr: nat)

  /** The fields between enc_len and the checksum. */
  function ReadLengths(r: Bytes): (x: Result<(Lengths, Bytes)>)
    ensures x.Ok? ==> |x.value.1| < |r| && x.value.0.target <= HARD_MAX_WINSIZE
  {
    var (target, r1) :- ReadVarint(r);
    if target > HARD_MAX_WINSIZE then Err(Io)
    else
      var (delInd, r2) :- ReadByte(r1);
      if delInd >= 8 then Err(Io)
      else
        var (data, r3) :- ReadVarint(r2);
        var (inst, r4) :- ReadVarint(r3);
        var (addr, r5) :- ReadVarint(r4);
        Ok((Lengths(target, delInd, data, inst, addr), r5))
  }

  /** The next window header, or none at the end of the stream. */
  function DecodeWindowHeader(r: Bytes): (x: Result<Option<(WindowHeader, Bytes)>>)
    ensures x.Ok? && x.value.Some? ==> |x.value.value.1| < |r| && x.value.value.0.targetWindowLen <= HARD_MAX_WINSIZE
  {
    if r == [] then Ok(None)
    else
      var winInd := r[0];
      if winInd >= 8 || (Bit(winInd, 0) && Bit(winInd, 1)) then Err(Io)
      else
        var (len, off, r1) :- ReadCopyWindow(winInd, r[1..]);
        var (encLen, r2) :- ReadVarint(r1);
        var (l, r3) :- ReadLengths(r2);
        var (adler, r4) :- ReadChecksum(winInd, r3);
        var h := WindowHeader(winInd, len, off, encLen, l.target, l.delInd, l.data, l.inst, l.addr, adler);
        if encLen != ComputeEncLen(h) then Err(Io) else Ok(Some((h, r4)))
  }

  /** A header as `assemble` builds it: flags and fields agree, and every field fits its type. */
  ghost predicate ValidWindowHeader(h: WindowHeader) {
    && h.winInd < 8 && !(Bit(h.winInd, 0) && Bit(h.winInd, 1))
    && (!HasCopyWindow(h.winInd) ==> h.copyWindowLen == 0 && h.copyWindowOffset == 0)
    && (Bit(h.winInd, 2) <==> h.adler32.Some?)
    && (h.adler32.Some? ==> h.adler32.value < U32_BOUND)
    && h.delInd < 8
    && h.copyWindowLen < U64_BOUND && h.copyWindowOffset < U64_BOUND
    && h.targetWindowLen < U64_BOUND
    && h.dataLen < U64_BOUND && h.instLen < U64_BOUND && h.addrLen < U64_BOUND
    && h.encLen == ComputeEncLen(h) < U64_BOUND
  }

  /** The most significant byte comes first. */
  lemma BigEndianIs(v: nat)
    requires v < U32_BOUND
    ensures var s := BigEndian(v);
            v == s[0] as int * 0x100_0000 + s[1] as int * 0x1_0000 + s[2] as int * 0x100 + s[3]
  {
    BigEndianRoundTrip(v);
  }

  lemma BigEndianRoundTrip(v: nat)
    requires v < U32_BOUND
    ensures FromBigEndian(BigEndian(v)) == v
  {
  }

  lemma CopyWindowBack(h: WindowHeader, rest: Bytes)
    requires ValidWindowHeader(h)
    ensures ReadCopyWindow(h.winInd, CopyWindowBytes(h) + rest) == Ok((h.copyWindowLen, h.copyWindowOffset, rest))
  {
    hide ReadVarint;
    if HasCopyWindow(h.winInd) {
      var a, b := Varint.Encode(h.copyWindowLen), Varint.Encode(h.copyWindowOffset);
      assert CopyWindowBytes(h) + rest == a + (b + rest);
      ReadVarintBack(h.copyWindowLen, b + rest);
      ReadVarintBack(h.copyWindowOffset, rest);
    } else {
      assert CopyWindowBytes(h) + rest == rest;
    }
  }

  function LengthsOf(h: WindowHeader): Lengths {
    Lengths(h.targetWindowLen, h.delInd, h.dataLen, h.instLen, h.addrLen)
  }

  /** The fields between enc_len and the checksum, with `rest` behind them. */
  function WriteLengths(h: WindowHeader, rest: Bytes): Bytes {
    Varint.Encode(h.targetWindowLen) + ([h.delInd]
    + (Varint.Encode(h.dataLen) + (Varint.Encode(h.instLen) + (Varint.Encode(h.addrLen) + rest))))
  }

  function ChecksumBytes(adler: Option<nat>): Bytes
    requires adler.Some? ==> adler.value < U32_BOUND
  {
    if adler.Some? then BigEndian(adler.value) else []
  }

  lemma LengthBytesRest(h: WindowHeader, rest: Bytes)
    requires ValidWindowHeader(h)
    ensures LengthBytes(h) + rest == WriteLengths(h, ChecksumBytes(h.adler32) + rest)
  {
  }

  /** The length fields are read back exactly when the window is within the hard limit. */
  lemma LengthsBack(h: WindowHeader, rest: Bytes)
    requires ValidWindowHeader(h)
    ensures ReadLengths(WriteLengths(h, rest))
         == if h.targetWindowLen <= HARD_MAX_WINSIZE then Ok((LengthsOf(h), rest)) else Err(Io)
  {
    hide ReadVarint;
    var d, i, a := Varint.Encode(h.dataLen), Varint.Encode(h.instLen), Varint.Encode(h.addrLen);
    var tail := d + (i + (a + rest));
    ReadVarintBack(h.targetWindowLen, [h.delInd] + tail);
    assert ([h.delInd] + tail)[1..] == tail;
    ReadVarintBack(h.dataLen, i + (a + rest));
    ReadVarintBack(h.instLen, a + rest);
    ReadVarintBack(h.addrLen, rest);
  }

  lemma ChecksumBack(winInd: Byte, adler: Option<nat>, rest: Bytes)
    requires Bit(winInd, 2) <==> adler.Some?
    requires adler.Some? ==> adler.value < U32_BOUND
    ensures ReadChecksum(winInd, ChecksumBytes(adler) + rest) == Ok((adler, rest))
  {
    if adler.Some? {
      BigEndianRoundTrip(adler.value);
      ReadBytesBack(BigEndian(adler.value), rest);
    } else {
      assert [] + rest == rest;
    }
  }

  /** The parts of an encoded header in the order they are read. */
  lemma HeaderBytes(h: WindowHeader, rest: Bytes)
    requires ValidWindowHeader(h)
    ensures var r := EncodeWindowHeader(h) + rest;
            var lens := WriteLengths(h, ChecksumBytes(h.adler32) + rest);
            && r != [] && r[0] == h.winInd
            && r[1..] == CopyWindowBytes(h) + (Varint.Encode(h.encLen) + lens)
  {
    hide LengthBytes, WriteLengths, CopyWindowBytes, ComputeEncLen, Varint.Encode;
    var c, enc := CopyWindowBytes(h), Varint.Encode(h.encLen);
    LengthBytesRest(h, rest);
    assert EncodeWindowHeader(h) + rest == [h.winInd] + (c + (enc + (LengthBytes(h) + rest)));
  }

  /**
    Decoding inverts encoding on every valid header, stopping exactly at the
    sections; a window over the hard limit is refused.
    */
  lemma WindowHeaderRoundTrip(h: WindowHeader, rest: Bytes)
    requires ValidWindowHeader(h)
    ensures DecodeWindowHeader(EncodeWindowHeader(h) + rest)
         == if h.targetWindowLen <= 0x100_0000 then Ok(Some((h, rest))) else Err(Io)
  {
    hide ReadVarint, ReadLengths, ReadCopyWindow, ReadChecksum, ComputeEncLen, WriteLengths, EncodeWindowHeader;
    hide CopyWindowBytes, ChecksumBytes, Varint.Encode;
    var k := ChecksumBytes(h.adler32);
    var lens := WriteLengths(h, k + rest);
    var enc := Varint.Encode(h.encLen);
    HeaderBytes(h, rest);
    CopyWindowBack(h, enc + lens);
    ReadVarintBack(h.encLen, lens);
    LengthsBack(h, k + rest);
    ChecksumBack(h.winInd, h.adler32, rest);
  }

  /** Whatever is accepted as a file header has the magic bytes and announces no custom code table. */
  lemma FileHeaderAccepted(r: Bytes)
    requires DecodeFileHeader(r).Ok?
    ensures var (h, rest) := DecodeFileHeader(r).value;
            && |r| >= 5 && r[..4] == [0xD6, 0xC3, 0xC4, 0x00] && r[4] == h.hdrInd
            && h.hdrInd < 8 && !Bit(h.hdrInd, 1)
            && (Bit(h.hdrInd, 0) <==> h.secondaryId.Some?) && (Bit(h.hdrInd, 2) <==> h.appHeader.Some?)
  {
    hide ReadVarint;
  }

  /** Whatever is accepted as a window header is consistent. */
  lemma WindowHeaderAccepted(r: Bytes)
    requires DecodeWindowHeader(r).Ok? && DecodeWindowHeader(r).value.Some?
    ensures var (h, rest) := DecodeWindowHeader(r).value.value;
            && r != [] && r[0] == h.winInd
            && h.winInd < 8 && !(Bit(h.winInd, 0) && Bit(h.winInd, 1)) && h.delInd < 8
            && h.encLen == ComputeEncLen(h) && h.targetWindowLen <= HARD_MAX_WINSIZE
            && (Bit(h.winInd, 2) <==> h.adler32.Some?)
            && (!HasCopyWindow(h.winInd) ==> h.copyWindowLen == 0 && h.copyWindowOffset == 0)
  {
    hide ReadVarint, ComputeEncLen;
  }

  /** `enc_len` counts exactly the bytes from behind it to the end of the window. */
  lemma EncLenExact(h: WindowHeader, data: Bytes, inst: Bytes, addr: Bytes)
    requires ValidWindowHeader(h)
    requires h.dataLen == |data| && h.instLen == |inst| && h.addrLen == |addr|
    ensures h.encLen == |LengthBytes(h) + data + inst + addr|
  {
    Varint.SizeofExact(h.targetWindowLen);
    Varint.SizeofExact(h.dataLen);
    Varint.SizeofExact(h.instLen);
    Varint.SizeofExact(h.addrLen);
  }
}
