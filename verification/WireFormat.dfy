/** The exact bytes written for small windows, and what a target that stands in the source becomes. */
module WireFormat {
  import opened Base
  import opened Instructions
  import opened Addressing
  import opened CodeTable
  import opened Sections
  import opened Headers
  import opened Encoder
  import opened Matching
  import opened MatchEngines
  import opened Overlap
  import opened Pipeline
  import opened Emission
  import opened Streams
  import opened Windowing
  import opened DeltaEncoders
  import Varint
  import Checksum
  import Engine

  // ---------------------------------------------------------------------
  // Bytes
  // ---------------------------------------------------------------------

  lemma SmallVarint(n: nat)
    requires n < 128
    ensures Varint.Encode(n) == [n] && Varint.SizeofU64(n) == 1
  {
    assert n / 128 == 0 && n % 128 == n;
    assert Varint.Groups(0) == [] && [] + [n] == [n];
    Varint.SizeofExact(n);
  }

  /** A short header in full: flags, copy window, length of the rest, target length, section flags and lengths. */
  lemma HeaderImage(h: WindowHeader)
    requires h.winInd in {0, 1, 4, 5} && (h.winInd >= 4 <==> h.adler32.Some?) && h.encLen == ComputeEncLen(h) < 128
    requires h.adler32.Some? ==> h.adler32.value < U32_BOUND
    requires h.copyWindowLen < 128 && h.copyWindowOffset < 128 && h.targetWindowLen < 128
    requires h.dataLen < 128 && h.instLen < 128 && h.addrLen < 128
    ensures h.encLen == 5 + h.dataLen + h.instLen + h.addrLen + (if h.adler32.Some? then 4 else 0)
    ensures EncodeWindowHeader(h)
         == [h.winInd] + (if h.winInd in {1, 5} then [h.copyWindowLen, h.copyWindowOffset] else [])
            + [h.encLen, h.targetWindowLen, h.delInd, h.dataLen, h.instLen, h.addrLen]
            + (if h.adler32.Some? then BigEndian(h.adler32.value) else [])
  {
    hide Varint.Encode, Varint.SizeofU64, BigEndian;
    SmallVarint(h.copyWindowLen);
    SmallVarint(h.copyWindowOffset);
    SmallVarint(h.encLen);
    SmallVarint(h.targetWindowLen);
    SmallVarint(h.dataLen);
    SmallVarint(h.instLen);
    SmallVarint(h.addrLen);
  }

  /** One literal: DATA has the bytes, INST the opcode for its length. */
  lemma LiteralPacked(d: Bytes)
    requires 1 <= |d| <= 17
    ensures var p := Pack(0, [Literal(d)]);
            && p.data == d && p.addr == [] && p.targetLen == |d| && Flushed(p.inst, p.pending) == [1 + |d|]
  {
    var ops := [Literal(d)];
    assert ops[..0] == [];
    var none := Pack(0, []);
    assert Pack(0, ops) == PackOp(0, none, ops[0]);
    TableLines(|d|, 0);
    assert [] + d == d;
    assert [] + ([1 + |d|] + []) == [1 + |d|];
  }

  /** Address zero is written absolutely. */
  lemma ZeroPreferred(c: Cache, here: nat)
    requires here > 0
    ensures Preferred(c, 0, here) == (0, [0])
  {
    assert BestOffset(c, 0, here) == Addressing.Best.Best(0, VCD_SELF);
    SmallVarint(0);
  }

  lemma CopyQueued(n: nat)
    requires 4 <= n <= 18
    ensures var (inst, pending) := Queue([], None, Info(CPY, n));
            Flushed(inst, pending) == [16 + n]
  {
    TableLines(n, 0);
    assert [] + ([16 + n] + []) == [16 + n];
  }

  /** A copy of the whole source: INST has the opcode for its length, ADDR the absolute address zero. */
  lemma CopyPacked(n: nat)
    requires 4 <= n <= 18
    ensures var p := Pack(n, [CopyFrom(n, 0)]);
            && p.data == [] && p.addr == [0] && p.targetLen == n && Flushed(p.inst, p.pending) == [16 + n]
  {
    hide Queue, Flushed, Preferred, Remember;
    var ops := [CopyFrom(n, 0)];
    assert ops[..0] == [];
    var none := Pack(n, []);
    assert [] + ops == ops;
    PackCopy(n, [], n, 0);
    ZeroPreferred(none.cache, n);
    CopyQueued(n);
    assert [] + [0] == [0];
  }

  /** The checksum field, if there is one. */
  ghost function SumBytes(win: Bytes, checksum: bool): (r: Bytes)
    ensures |r| == if checksum then 4 else 0
  {
    if checksum then BigEndian(Checksum.Adler32(win)) else []
  }

  /** The window of a short literal, byte by byte. */
  lemma LiteralImage(d: Bytes, checksum: bool)
    requires 1 <= |d| <= 17
    ensures Positive([Add(|d|)]) && TotalLen([Add(|d|)]) == |d|
    ensures var n := |d|;
            WindowBytes([], d, [Add(n)], checksum)
            == [if checksum then 4 else 0, n + 6 + |SumBytes(d, checksum)|, n, 0, n, 1, 0]
               + SumBytes(d, checksum) + d + [n + 1]
  {
    hide Pack, Flushed, EncodeWindowHeader, ComputeEncLen, BigEndian, Checksum.Adler32;
    var n, insts, sum := |d|, [Add(|d|)], SumBytes(d, checksum);
    assert insts[1..] == [];
    assert d[0..n] == d;
    assert OpsOf(insts, d, 0) == [Literal(d)] + [];
    assert [Literal(d)] + [] == [Literal(d)];
    LiteralPacked(d);
    var s := SectionsOf(None, checksum, [Literal(d)], Some(d));
    assert s.data == d && s.inst == [n + 1] && s.addr == [] && s.targetLen == n;
    var h := HeaderOf(s, 0);
    HeaderValid(s, 0);
    EncLenSmall(h);
    HeaderImage(h);
    var head := [if checksum then 4 else 0, n + 6 + |sum|, n, 0, n, 1, 0];
    assert EncodeWindowHeader(h) == head + sum;
    assert (head + sum) + d + [n + 1] + [] == head + sum + d + [n + 1];
  }

  lemma EncLenSmall(h: WindowHeader)
    requires h.targetWindowLen < 128 && h.dataLen < 50 && h.instLen < 50 && h.addrLen < 20
    ensures ComputeEncLen(h) < 128
  {
    hide Varint.SizeofU64;
    SmallVarint(h.targetWindowLen);
    SmallVarint(h.dataLen);
    SmallVarint(h.instLen);
    SmallVarint(h.addrLen);
  }

  /** The window of a target equal to a short source, byte by byte. */
  lemma CopyImage(source: Bytes, checksum: bool)
    requires 4 <= |source| <= 18
    ensures var n := |source|;
            && Positive([Copy(n, 0, 0)]) && TotalLen([Copy(n, 0, 0)]) == n
            && WindowBytes(source, source, [Copy(n, 0, 0)], checksum)
               == [if checksum then 5 else 1, n, 0, 7 + |SumBytes(source, checksum)|, n, 0, 0, 1, 1]
                  + SumBytes(source, checksum) + [n + 16, 0]
  {
    hide Pack, Flushed, EncodeWindowHeader, ComputeEncLen, BigEndian, Checksum.Adler32;
    var n, insts, sum := |source|, [Copy(|source|, 0, 0)], SumBytes(source, checksum);
    assert insts[1..] == [];
    assert OpsOf(insts, source, 0) == [CopyFrom(n, 0)] + [];
    assert [CopyFrom(n, 0)] + [] == [CopyFrom(n, 0)];
    CopyPacked(n);
    var s := SectionsOf(Some(SourceWindow(n, 0)), checksum, [CopyFrom(n, 0)], Some(source));
    assert s.data == [] && s.inst == [n + 16] && s.addr == [0] && s.targetLen == n;
    var h := HeaderOf(s, 0);
    HeaderValid(s, 0);
    EncLenSmall(h);
    HeaderImage(h);
    var head := [if checksum then 5 else 1, n, 0, 7 + |sum|, n, 0, 0, 1, 1];
    assert EncodeWindowHeader(h) == head + sum;
    assert (head + sum) + [] + [n + 16] + [0] == head + sum + [n + 16, 0];
  }

  /** On level 0 everything is written literally, whatever the source and the hash functions. */
  lemma LevelZero(o: Options, source: Bytes, ws: seq<Bytes>, i: nat)
    requires Sized(source, ws) && i < |ws| && o.level == 0
    ensures Plan(o, source, ws, i) == if ws[i] == [] then [] else [Add(|ws[i]|)]
  {
  }

  lemma ConcatOne(w: Bytes)
    ensures Concat([w]) == w
  {
    var ws: seq<Bytes> := [w];
    assert ws[1..] == [];
    assert w + [] == w;
  }

  lemma FileHeaderImage()
    ensures EncodeFileHeader(DEFAULT_FILE_HEADER) == [0xD6, 0xC3, 0xC4, 0, 0]
  {
  }

  /** What the streaming encoder writes for a short target on level 0 without a source. */
  lemma PlainStream(o: Options, d: Bytes)
    requires ValidOptions(o) && o.level == 0 && 1 <= |d| <= 17 && |d| <= o.windowSize
    ensures var n := |d|;
            DeltaEncoders.StreamBytes(o, [], d)
            == [0xD6, 0xC3, 0xC4, 0, 0]
               + ([if o.checksum then 4 else 0, n + 6 + |SumBytes(d, o.checksum)|, n, 0, n, 1, 0]
                  + SumBytes(d, o.checksum) + d + [n + 1])
  {
    hide WindowBytes, Windows, SumBytes;
    var n := |d|;
    OneWindow(d, o.windowSize);
    WindowsConcat(d, o.windowSize);
    LevelZero(o, [], [d], 0);
    LiteralImage(d, o.checksum);
    var w := WindowBytes([], d, [Add(n)], o.checksum);
    assert DeltaEncoders.AllBytes(o, [], [d]) == [w];
    ConcatOne(w);
    FileHeaderImage();
  }

  /** What the one-call encoder writes for a target equal to a short source, on every level and with any tables. */
  lemma SameStream(source: Bytes, level: nat, windowSize: nat, checksum: bool, hashes: nat -> Hashes)
    requires 4 <= |source| <= 18 && |source| <= windowSize
    ensures var n := |source|;
            Engine.StreamBytes(source, source, level, windowSize, checksum, hashes)
            == [0xD6, 0xC3, 0xC4, 0, 0]
               + ([if checksum then 5 else 1, n, 0, 7 + |SumBytes(source, checksum)|, n, 0, 0, 1, 1]
                  + SumBytes(source, checksum) + [n + 16, 0])
  {
    hide WindowBytes, Windows, SumBytes, Engine.Found;
    OneWindow(source, windowSize);
    Engine.PrefixFound(source, source, level, hashes(|source|));
    CopyImage(source, checksum);
    var w := WindowBytes(source, source, [Copy(|source|, 0, 0)], checksum);
    assert Engine.AllBytes(source, [source], level, checksum, hashes) == [w];
    ConcatOne(w);
    FileHeaderImage();
  }

  // ---------------------------------------------------------------------
  // A target that stands in the source
  // ---------------------------------------------------------------------

  /** The engine finds each window where the one before ended. */
  lemma {:induction false} SrcPosFollows(o: Options, source: Bytes, data: Bytes, i: nat)
    requires data <= source && |source| <= MAX_SLICE && o.windowSize >= MIN_MATCH
    requires i < |Windows(data, o.windowSize)|
    ensures SrcPosAfter(o, source, Windows(data, o.windowSize)[..i]) == i * o.windowSize
    decreases i
  {
    hide Windows, NextSrcPos;
    var size, ws := o.windowSize, Windows(data, o.windowSize);
    if i > 0 {
      SrcPosFollows(o, source, data, i - 1);
      WindowAt(data, size, i - 1);
      WindowAt(data, size, i);
      assert i * size == (i - 1) * size + size;
      var w := ws[i - 1];
      assert ws[..i][..i - 1] == ws[..i - 1] && ws[..i][i - 1] == w;
      NextSrcPosIs(EnvAt(o, source, w), (i - 1) * size);
      assert |w| == size;
      assert source[(i - 1) * size..(i - 1) * size + size] == data[(i - 1) * size..(i - 1) * size + size];
    }
  }

  lemma PrefixRaw(o: Options, source: Bytes, data: Bytes, i: nat)
    requires data <= source && |source| <= MAX_SLICE && o.windowSize >= MIN_MATCH
    requires i < |Windows(data, o.windowSize)| && |Windows(data, o.windowSize)[i]| >= MIN_MATCH
    ensures var ws := Windows(data, o.windowSize);
            Raw(o, source, ws, i) == [Copy(|ws[i]|, i * o.windowSize, 0)]
  {
    hide Windows, Search, SrcPosAfter;
    var size, w := o.windowSize, Windows(data, o.windowSize)[i];
    WindowAt(data, size, i);
    SrcPosFollows(o, source, data, i);
    var lo := i * size;
    assert source[lo..lo + |w|] == data[lo..lo + |w|];
    PrefixCopied(EnvAt(o, source, w), lo);
  }

  /**
    A target the source begins with becomes one COPY per window, each from where
    the one before ended, on every level above 0 and for all hash functions.
    */
  lemma PrefixPlanned(o: Options, source: Bytes, data: Bytes, i: nat)
    requires ValidOptions(o) && data <= source && |source| <= MAX_SLICE && o.windowSize >= MIN_MATCH && o.level > 0
    requires i < |Windows(data, o.windowSize)| && |Windows(data, o.windowSize)[i]| >= MIN_MATCH
    ensures Sized(source, Windows(data, o.windowSize))
    ensures var w := Windows(data, o.windowSize)[i];
            Plan(o, source, Windows(data, o.windowSize), i) == [Copy(|w|, i * o.windowSize, 0)]
  {
    hide Windows, Raw, Optimized;
    var ws := Windows(data, o.windowSize);
    WindowsConcat(data, o.windowSize);
    PrefixRaw(o, source, data, i);
    OneCopyKept(|ws[i]|, i * o.windowSize, ws[i]);
  }

  lemma OneCopyKept(n: nat, addr: nat, target: Bytes)
    requires 0 < n == |target|
    ensures TotalLen([Copy(n, addr, 0)]) == n
    ensures Optimized([Copy(n, addr, 0)], target) == [Copy(n, addr, 0)]
  {
    var i := Copy(n, addr, 0);
    assert [i][1..] == [];
    assert NonZero([i]) == [i] + [] == [i];
    assert Coalesce([i]) == [i];
    assert SplitAll([i], target, 0) == [i] + [];
  }
}
