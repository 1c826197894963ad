/** Decoding of one window: the machine that walks the three sections. */
module Decoder {
  import opened Base
  import opened Instructions
  import opened Addressing
  import opened CodeTable
  import opened Sections
  import opened Headers
  import Varint
  import Checksum

  function WindowOf(h: WindowHeader, source: Bytes): Window {
    Window(source, h.copyWindowOffset, h.copyWindowLen)
  }

  /** What becomes of the replayed bytes: the size and checksum tests behind the last instruction. */
  function Verified(h: WindowHeader, replayed: Option<Bytes>, verify: bool): Result<Bytes> {
    if replayed.None? || |replayed.value| != h.targetWindowLen then Err(InvalidInput)
    else if verify && h.adler32.Some? && Checksum.Adler32(replayed.value) != h.adler32.value then
      Err(ChecksumMismatch(h.adler32.value, Checksum.Adler32(replayed.value)))
    else Ok(replayed.value)
  }

  /** What a window's sections decode to, by the three-pass reference. */
  function DecodeSections(h: WindowHeader, data: Bytes, inst: Bytes, addr: Bytes, source: Bytes, verify: bool)
    : (r: Result<Bytes>)
    ensures r.Ok? ==> |r.value| == h.targetWindowLen
  {
    var w := WindowOf(h, source);
    Verified(h, Execute([], Start(inst, addr, w), data, w, []), verify)
  }

  /** A window decodes to exactly what its instructions replay to, of the announced length and checksum. */
  lemma DecodesIff(h: WindowHeader, data: Bytes, inst: Bytes, addr: Bytes, source: Bytes, verify: bool, out: Bytes)
    ensures var w := WindowOf(h, source);
            DecodeSections(h, data, inst, addr, source, verify) == Ok(out)
            <==> && Execute([], Start(inst, addr, w), data, w, []) == Some(out)
                 && |out| == h.targetWindowLen
                 && (verify && h.adler32.Some? ==> Checksum.Adler32(out) == h.adler32.value)
  {
    hide Execute, Checksum.Adler32;
  }

  // ---------------------------------------------------------------------
  // Copying
  // ---------------------------------------------------------------------

  /** Bulk copy when the stretch is already written, byte by byte when it is not. */
  method SelfCopy(output: Bytes, from: nat, size: nat) returns (result: Bytes)
    requires from < |output|
    ensures result == CopyBytes(output, from, size)
  {
    if from + size <= |output| {
      CopyBytesBulk(output, from, size);
      result := output + output[from..from + size];
    } else {
      result := output;
      for i := 0 to size
        invariant |result| == |output| + i
        invariant CopyBytes(result, from + i, size - i) == CopyBytes(output, from, size)
      {
        var byte := result[from + i];
        result := result + [byte];
      }
    }
  }

  /** Source bytes, by slice or through a buffer that must come back full. */
  method SourceCopy(source: Bytes, offset: nat, size: nat) returns (r: Option<Bytes>)
    ensures r == if size == 0 then Some([])
                 else if offset + size <= |source| then Some(source[offset..offset + size]) else None
  {
    if offset + size <= |source| {
      assert source[offset..offset] == [];
      r := Some(source[offset..offset + size]);
    } else {
      var n := if offset >= |source| then 0 else Min(size, |source| - offset);
      if n < size {
        r := None;
      } else {
        r := Some([]);
      }
    }
  }

  // ---------------------------------------------------------------------
  // The machine
  // ---------------------------------------------------------------------

  /** The cursors of the machine and the output, whose window part starts at `base`. */
  datatype Machine = Machine(instPos: nat, dataPos: nat, addrPos: nat, targetPos: nat, output: Bytes)

  /** The machine stays inside its sections and counts its output. */
  ghost predicate InBounds(m: Machine, data: Bytes, inst: Bytes, addr: Bytes, base: nat) {
    && m.instPos <= |inst| && m.dataPos <= |data| && m.addrPos <= |addr|
    && |m.output| == base + m.targetPos
  }

  ghost function CursorOf(m: Machine, inst: Bytes, addr: Bytes, cache: StdCache, segment: nat): Cursor
    requires m.instPos <= |inst| && m.addrPos <= |addr|
  {
    Cursor(inst[m.instPos..], addr[m.addrPos..], cache, segment + m.targetPos)
  }

  /** What one half-instruction does to cursor, remaining data and output; none if it fails. */
  ghost function StepHalf(h: Info, s: Cursor, data: Bytes, w: Window, out: Bytes): Option<(Cursor, Bytes, Bytes)>
    requires IsHalf(h)
  {
    var (i, s') :- ParseHalf(h, s);
    var (op, data') :- BindOne(i, data);
    var out' :- ReplayOp(w, out, op);
    Some((s', data', out'))
  }

  ghost predicate StdShape(acache: AddressCache)
    reads acache, acache.near, acache.same
  {
    acache.Valid() && acache.near.Length == 4 && acache.same.Length == 768
  }

  method ResolveSize(tableSize: nat, inst: Bytes, pos: nat) returns (r: Option<(nat, nat)>)
    requires pos <= |inst|
    ensures match TakeSize(tableSize, inst[pos..])
            case None => r == None
            case Some((size, rest)) =>
              r.Some? && r.value.0 == size && pos <= r.value.1 <= |inst| && inst[r.value.1..] == rest
  {
    if tableSize == 0 {
      var reading := Varint.ReadInteger(inst[pos..], U32_BOUND);
      if reading.Failed? {
        return None;
      }
      assert inst[pos..][reading.consumed..] == inst[pos + reading.consumed..];
      return Some((reading.value, pos + reading.consumed));
    }
    return Some((tableSize, pos));
  }

  /** The machine did what the reference step does, and touched nothing before `base`. */
  ghost predicate Agrees(r: Option<Machine>, step: Option<(Cursor, Bytes, Bytes)>, before: Bytes,
                         data: Bytes, inst: Bytes, addr: Bytes, cache: StdCache, segment: nat)
  {
    match step
    case None => r == None
    case Some((s', data', out')) =>
      && r.Some?
      && InBounds(r.value, data, inst, addr, |before|)
      && CursorOf(r.value, inst, addr, cache, segment) == s'
      && data[r.value.dataPos..] == data'
      && r.value.output == before + out'
  }

  /** What was executed is what the parser reads at this place. */
  ghost predicate Traced(r: Option<Machine>, did: Inst, parsed: Option<(Inst, Cursor)>,
                         inst: Bytes, addr: Bytes, cache: StdCache, segment: nat)
  {
    r.Some? ==>
      && r.value.instPos <= |inst| && r.value.addrPos <= |addr|
      && parsed == Some((did, CursorOf(r.value, inst, addr, cache, segment)))
  }

  /** A COPY from the window: boundary test, then source or target. */
  method CopyOut(size: nat, addr: nat, output: Bytes, base: nat, w: Window) returns (r: Option<Bytes>)
    requires base <= |output| && addr < w.len + |output| - base
    ensures match ReplayOp(w, output[base..], CopyFrom(size, addr))
            case None => r == None
            case Some(out) => r == Some(output[..base] + out)
  {
    if addr < w.len && addr + size > w.len {
      return None;
    }
    if addr < w.len {
      var bytes := SourceCopy(w.source, w.offset + addr, size);
      if bytes.None? {
        return None;
      }
      assert output + bytes.value == output[..base] + (output[base..] + bytes.value);
      assert output[base..] + [] == output[base..];
      return Some(output + bytes.value);
    }
    var from := base + (addr - w.len);
    CopyBytesShift(output[..base], output[base..], addr - w.len, size);
    assert output[..base] + output[base..] == output;
    var result := SelfCopy(output, from, size);
    return Some(result);
  }

  /** COPY: decode the address, then copy. */
  method ExecuteCopy(mode: nat, size: nat, m: Machine, data: Bytes, inst: Bytes, addr: Bytes,
                     acache: AddressCache, w: Window, base: nat) returns (r: Option<Machine>, ghost did: Inst)
    requires StdShape(acache) && mode < MODES && InBounds(m, data, inst, addr, base)
    modifies acache, acache.near, acache.same
    ensures StdShape(acache)
    ensures Agrees(r, StepSized(CPY + mode, size, CursorOf(m, inst, addr, old(acache.State()), w.len),
                                data[m.dataPos..], w, m.output[base..]),
                   m.output[..base], data, inst, addr, acache.State(), w.len)
    ensures Traced(r, did, ParseSized(CPY + mode, size, CursorOf(m, inst, addr, old(acache.State()), w.len)),
                   inst, addr, acache.State(), w.len)
  {
    hide ReplayOp, Decode;
    r, did := None, Copy(size, 0, mode);
    var here := w.len + m.targetPos;
    var a := acache.DecodeAddress(mode, addr[m.addrPos..], here);
    if a.None? {
      return;
    }
    var (from, consumed) := a.value;
    did := Copy(size, from, mode);
    var out := CopyOut(size, from, m.output, base, w);
    if out.None? {
      return;
    }
    assert addr[m.addrPos..][consumed..] == addr[m.addrPos + consumed..];
    r := Some(Machine(m.instPos, m.dataPos, m.addrPos + consumed, m.targetPos + size, out.value));
  }

  ghost function StepSized(itype: nat, size: nat, s: Cursor, data: Bytes, w: Window, out: Bytes)
    : Option<(Cursor, Bytes, Bytes)>
    requires ADD <= itype < CPY + MODES
  {
    var (i, s') :- ParseSized(itype, size, s);
    var (op, data') :- BindOne(i, data);
    var out' :- ReplayOp(w, out, op);
    Some((s', data', out'))
  }

  /** RUN and ADD take their bytes from DATA. */
  method ExecuteLiteral(itype: nat, size: nat, m: Machine, data: Bytes, inst: Bytes, addr: Bytes,
                        ghost cache: StdCache, w: Window, base: nat) returns (r: Option<Machine>, ghost did: Inst)
    requires itype == RUN || itype == ADD
    requires InBounds(m, data, inst, addr, base)
    ensures Agrees(r, StepSized(itype, size, CursorOf(m, inst, addr, cache, w.len),
                                data[m.dataPos..], w, m.output[base..]),
                   m.output[..base], data, inst, addr, cache, w.len)
    ensures Traced(r, did, ParseSized(itype, size, CursorOf(m, inst, addr, cache, w.len)), inst, addr, cache, w.len)
  {
    r, did := None, if itype == RUN then Run(size) else Add(size);
    var bytes: Bytes, used: nat;
    if itype == RUN {
      if m.dataPos >= |data| {
        return;
      }
      bytes, used := Fill(data[m.dataPos], size), 1;
      assert data[m.dataPos..][1..] == data[m.dataPos + 1..];
    } else {
      var end := m.dataPos + size;
      if end > |data| {
        return;
      }
      bytes, used := data[m.dataPos..end], size;
      assert data[m.dataPos..][..size] == data[m.dataPos..end];
      assert data[m.dataPos..][size..] == data[end..];
    }
    assert m.output + bytes == m.output[..base] + (m.output[base..] + bytes);
    r := Some(Machine(m.instPos, m.dataPos + used, m.addrPos, m.targetPos + size, m.output + bytes));
  }

  /** One half-instruction. */
  method ExecuteHalfInstruction(h: Info, m: Machine, data: Bytes, inst: Bytes, addr: Bytes,
                                acache: AddressCache, w: Window, base: nat)
    returns (r: Option<Machine>, ghost did: Inst)
    requires StdShape(acache) && IsHalf(h) && InBounds(m, data, inst, addr, base)
    modifies acache, acache.near, acache.same
    ensures StdShape(acache)
    ensures Agrees(r, StepHalf(h, CursorOf(m, inst, addr, old(acache.State()), w.len),
                               data[m.dataPos..], w, m.output[base..]),
                   m.output[..base], data, inst, addr, acache.State(), w.len)
    ensures Traced(r, did, ParseHalf(h, CursorOf(m, inst, addr, old(acache.State()), w.len)),
                   inst, addr, acache.State(), w.len)
  {
    hide ReplayOp, BindOne, ParseSized, TakeSize;
    r, did := None, Add(0);
    var sized := ResolveSize(h.size, inst, m.instPos);
    if sized.None? {
      return;
    }
    var (size, instPos) := sized.value;
    var m' := m.(instPos := instPos);
    if h.itype == RUN || h.itype == ADD {
      r, did := ExecuteLiteral(h.itype, size, m', data, inst, addr, acache.State(), w, base);
    } else {
      r, did := ExecuteCopy(h.itype - CPY, size, m', data, inst, addr, acache, w, base);
    }
  }

  /** What the reference makes of the rest of the window. */
  ghost function Remaining(q: seq<Info>, m: Machine, data: Bytes, inst: Bytes, addr: Bytes, cache: StdCache,
                           w: Window, base: nat): Option<Bytes>
    requires InBounds(m, data, inst, addr, base)
    requires forall i :: 0 <= i < |q| ==> IsHalf(q[i])
  {
    Execute(q, CursorOf(m, inst, addr, cache, w.len), data[m.dataPos..], w, m.output[base..])
  }

  /** What the parser makes of the rest of the window. */
  ghost function Unparsed(q: seq<Info>, m: Machine, inst: Bytes, addr: Bytes, cache: StdCache, segment: nat)
    : Option<(seq<Inst>, Cursor)>
    requires m.instPos <= |inst| && m.addrPos <= |addr|
    requires forall i :: 0 <= i < |q| ==> IsHalf(q[i])
  {
    Parse(q, CursorOf(m, inst, addr, cache, segment))
  }

  /** Executes the first queued half-instruction; what remains to be done has the same outcome. */
  method NextHalf(ghost q: seq<Info>, h: Info, m: Machine, data: Bytes, inst: Bytes, addr: Bytes,
                  acache: AddressCache, w: Window, base: nat) returns (ok: bool, m': Machine, ghost did: Inst)
    requires StdShape(acache) && InBounds(m, data, inst, addr, base)
    requires forall i :: 0 <= i < |q| ==> IsHalf(q[i])
    requires q != [] && q[0] == h
    modifies acache, acache.near, acache.same
    ensures StdShape(acache) && InBounds(m', data, inst, addr, base)
    ensures m'.output[..base] == m.output[..base] && m.instPos <= m'.instPos
    ensures old(Remaining(q, m, data, inst, addr, acache.State(), w, base))
         == if ok then Remaining(q[1..], m', data, inst, addr, acache.State(), w, base) else None
    ensures ok ==>
              old(Unparsed(q, m, inst, addr, acache.State(), w.len))
              == InFront(did, Unparsed(q[1..], m', inst, addr, acache.State(), w.len))
  {
    hide Execute, ReplayOp, BindOne, Parse, ParseHalf;
    ExecuteHalf(q, CursorOf(m, inst, addr, acache.State(), w.len), data[m.dataPos..], w, m.output[base..]);
    ParseHead(h, q[1..], CursorOf(m, inst, addr, acache.State(), w.len));
    assert q == [h] + q[1..];
    var r;
    r, did := ExecuteHalfInstruction(h, m, data, inst, addr, acache, w, base);
    if r.None? {
      return false, m, did;
    }
    assert |CursorOf(r.value, inst, addr, acache.State(), w.len).inst| <= |inst[m.instPos..]|;
    assert r.value.output[base..] == r.value.output[|m.output[..base]|..];
    return true, r.value, did;
  }

  /** Executes one opcode: its first half-instruction, then its second. */
  method NextOpcode(m: Machine, data: Bytes, inst: Bytes, addr: Bytes,
                    acache: AddressCache, w: Window, base: nat)
    returns (ok: bool, m': Machine, ghost did: seq<Inst>)
    requires StdShape(acache) && InBounds(m, data, inst, addr, base)
    requires m.instPos < |inst|
    modifies acache, acache.near, acache.same
    ensures StdShape(acache) && InBounds(m', data, inst, addr, base)
    ensures m'.output[..base] == m.output[..base]
    ensures ok ==> m.instPos < m'.instPos
    ensures old(Remaining([], m, data, inst, addr, acache.State(), w, base))
         == if ok then Remaining([], m', data, inst, addr, acache.State(), w, base) else None
    ensures ok ==>
              old(Unparsed([], m, inst, addr, acache.State(), w.len))
              == Prepend(did, Unparsed([], m', inst, addr, acache.State(), w.len))
  {
    hide Execute, DefaultEntry, InFront, Prepend, Parse;
    var opcode := inst[m.instPos];
    ExecuteOpcode(CursorOf(m, inst, addr, acache.State(), w.len), data[m.dataPos..], w, m.output[base..]);
    m' := m.(instPos := m.instPos + 1);
    assert inst[m.instPos..][1..] == inst[m'.instPos..];
    var entry := DefaultEntry(opcode);
    ghost var q := Halves(opcode);
    ghost var i: Inst;
    did := [];
    ParseOpcode(CursorOf(m, inst, addr, acache.State(), w.len));
    ghost var all := Unparsed(q, m', inst, addr, acache.State(), w.len);
    PrependNothing(all);
    if entry.type1 != NOOP {
      ok, m', i := NextHalf(q, Info(entry.type1, entry.size1), m', data, inst, addr, acache, w, base);
      if !ok {
        return;
      }
      q := q[1..];
      PrependInFront(did, i, Unparsed(q, m', inst, addr, acache.State(), w.len));
      did := did + [i];
    }
    if entry.type2 != NOOP {
      ok, m', i := NextHalf(q, Info(entry.type2, entry.size2), m', data, inst, addr, acache, w, base);
      if !ok {
        return;
      }
      q := q[1..];
      PrependInFront(did, i, Unparsed(q, m', inst, addr, acache.State(), w.len));
      did := did + [i];
    }
    assert q == [];
    ok := true;
  }

  /**
    Decodes a window behind what `output` already holds. The interleaved machine
    agrees with the three-pass reference, whatever the sections are, and never
    changes a byte of earlier windows.
    */
  method DecodeWindowWithCache(h: WindowHeader, data: Bytes, inst: Bytes, addr: Bytes, source: Bytes, verify: bool,
                               output: Bytes, acache: AddressCache)
    returns (r: Result<()>, result: Bytes, ghost executed: seq<Inst>)
    requires StdShape(acache)
    modifies acache, acache.near, acache.same
    ensures StdShape(acache)
    ensures output <= result
    ensures r.Ok? ==> |result| == |output| + h.targetWindowLen
    ensures match DecodeSections(h, data, inst, addr, source, verify)
            case Ok(out) => r == Ok(()) && result == output + out
            case Err(e) => r == Err(e)
    ensures r.Ok? ==>
              var parsed := Parse([], Start(inst, addr, WindowOf(h, source)));
              parsed.Some? && parsed.value.0 == executed
  {
    hide Execute, Parse, Prepend;
    executed := [];
    var w, base := WindowOf(h, source), |output|;
    acache.Init();
    var m := Machine(0, 0, 0, 0, output);
    ghost var outcome := Execute([], Start(inst, addr, w), data, w, []);
    ghost var parsed := Parse([], Start(inst, addr, w));
    PrependNothing(parsed);
    assert inst[0..] == inst && addr[0..] == addr && data[0..] == data && output[base..] == [];
    while m.instPos < |inst|
      invariant StdShape(acache) && InBounds(m, data, inst, addr, base)
      invariant m.output[..base] == output
      invariant Remaining([], m, data, inst, addr, acache.State(), w, base) == outcome
      invariant parsed == Prepend(executed, Unparsed([], m, inst, addr, acache.State(), w.len))
      decreases |inst| - m.instPos
    {
      var ok;
      ghost var did;
      ok, m, did := NextOpcode(m, data, inst, addr, acache, w, base);
      if !ok {
        return Err(InvalidInput), m.output, executed;
      }
      PrependTwice(executed, did, Unparsed([], m, inst, addr, acache.State(), w.len));
      executed := executed + did;
    }
    ParseDone(CursorOf(m, inst, addr, acache.State(), w.len));
    PrependLast(executed, CursorOf(m, inst, addr, acache.State(), w.len));
    ExecuteDone(CursorOf(m, inst, addr, acache.State(), w.len), data[m.dataPos..], w, m.output[base..]);
    result := m.output;
    assert result == output + result[base..];
    if |result| - base != h.targetWindowLen {
      return Err(InvalidInput), result, executed;
    }
    if verify && h.adler32.Some? {
      var actual := Checksum.ComputeAdler32(result[base..]);
      if actual != h.adler32.value {
        return Err(ChecksumMismatch(h.adler32.value, actual)), result, executed;
      }
    }
    r := Ok(());
  }

  lemma ExecuteDone(s: Cursor, data: Bytes, w: Window, out: Bytes)
    requires s.inst == []
    ensures Execute([], s, data, w, out) == Some(out)
  {
  }
}
