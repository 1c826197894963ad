/** Encoding of one window: instructions become DATA, INST and ADDR bytes. */
module Encoder {
  import opened Base
  import opened Instructions
  import opened Addressing
  import opened CodeTable
  import opened Sections
  import opened Headers
  import Varint
  import Checksum

  // ---------------------------------------------------------------------
  // What emitted opcodes parse back to
  // ---------------------------------------------------------------------

  /** INST and ADDR parse completely, to `insts`, ending in the given cache and position. */
  ghost predicate Emitted(inst: Bytes, addr: Bytes, segment: nat, insts: seq<Inst>, cache: StdCache, here: nat) {
    Parse([], Cursor(inst, addr, InitCache(4, 3), segment)) == Some((insts, Cursor([], [], cache, here)))
  }

  /** An instruction without opcode yet: `addr` holds exactly its address bytes. */
  ghost predicate Queued(info: Info, addr: Bytes, cache: StdCache, here: nat, i: Inst, cache': StdCache, here': nat) {
    && IsInstruction(info) && info.size < U32_BOUND
    && ParseSized(info.itype, info.size, Cursor([], addr, cache, here)) == Some((i, Cursor([], [], cache', here')))
  }

  /** The opcode stands for this instruction alone. */
  ghost predicate IsSingle(code: Byte, info: Info) {
    var e := DefaultEntry(code);
    e.type1 == info.itype && e.type2 == NOOP && (e.size1 == 0 || e.size1 == info.size)
  }

  function SingleBytes(code: Byte, info: Info): Bytes {
    [code] + (if DefaultEntry(code).size1 == 0 then Varint.Encode(info.size) else [])
  }

  lemma HalfParses(info: Info, size: nat, inst: Bytes, addr: Bytes, cache: StdCache, here: nat,
                   i: Inst, cache': StdCache, here': nat)
    requires Queued(info, addr, cache, here, i, cache', here')
    requires size == 0 || size == info.size
    requires inst == if size == 0 then Varint.Encode(info.size) else []
    ensures ParseHalf(Info(info.itype, size), Cursor(inst, addr, cache, here))
         == Some((i, Cursor([], [], cache', here')))
  {
    hide ParseSized;
    if size == 0 {
      Varint.ReadEncode(info.size, [], U32_BOUND);
      assert inst + [] == inst;
    }
  }

  lemma SingleParses(code: Byte, info: Info, addr: Bytes, cache: StdCache, here: nat,
                     i: Inst, cache': StdCache, here': nat)
    requires IsSingle(code, info)
    requires Queued(info, addr, cache, here, i, cache', here')
    ensures Parse([], Cursor(SingleBytes(code, info), addr, cache, here)) == Some(([i], Cursor([], [], cache', here')))
  {
    hide ParseHalf, DefaultEntry;
    var size := DefaultEntry(code).size1;
    var inst := SingleBytes(code, info);
    assert inst[1..] == if size == 0 then Varint.Encode(info.size) else [];
    HalfParses(info, size, inst[1..], addr, cache, here, i, cache', here');
    var h, end := Info(info.itype, size), Cursor([], [], cache', here');
    ParseCons(h, [], Cursor(inst[1..], addr, cache, here), i, end, [], end);
    assert Halves(code) == [h] + [];
    assert [i] + [] == [i];
  }

  lemma EmitSingle(inst: Bytes, addr: Bytes, segment: nat, insts: seq<Inst>, cache: StdCache, here: nat,
                   code: Byte, info: Info, more: Bytes, i: Inst, cache': StdCache, here': nat)
    requires Emitted(inst, addr, segment, insts, cache, here)
    requires IsSingle(code, info)
    requires Queued(info, more, cache, here, i, cache', here')
    ensures Emitted(inst + SingleBytes(code, info), addr + more, segment, insts + [i], cache', here')
  {
    hide Parse, SingleBytes;
    var x := SingleBytes(code, info);
    SingleParses(code, info, more, cache, here, i, cache', here');
    ParseExtend([], Cursor(inst, addr, InitCache(4, 3), segment), x, more);
    assert [] + x == x && [] + more == more;
  }

  lemma DoubleParses(code: Byte, p: Info, q: Info, addr1: Bytes, addr2: Bytes, cache: StdCache, here: nat,
                     i: Inst, cache1: StdCache, here1: nat, j: Inst, cache2: StdCache, here2: nat)
    requires DefaultEntry(code) == Entry(p.itype, p.size, q.itype, q.size)
    requires Queued(p, addr1, cache, here, i, cache1, here1)
    requires Queued(q, addr2, cache1, here1, j, cache2, here2)
    ensures Parse([], Cursor([code], addr1 + addr2, cache, here)) == Some(([i, j], Cursor([], [], cache2, here2)))
  {
    hide ParseHalf, DefaultEntry;
    HalfParses(p, p.size, [], addr1, cache, here, i, cache1, here1);
    HalfParses(q, q.size, [], addr2, cache1, here1, j, cache2, here2);
    ParseHalfExtend(p, Cursor([], addr1, cache, here), [], addr2);
    assert [] + addr2 == addr2;
    var mid, end := Cursor([], addr2, cache1, here1), Cursor([], [], cache2, here2);
    ParseCons(q, [], mid, j, end, [], end);
    assert [q] + [] == [q] && [j] + [] == [j];
    ParseCons(p, [q], Cursor([], addr1 + addr2, cache, here), i, mid, [j], end);
    assert Halves(code) == [p] + [q];
    assert [code][1..] == [] && [i] + [j] == [i, j];
  }

  lemma EmitDouble(inst: Bytes, addr: Bytes, segment: nat, insts: seq<Inst>, cache: StdCache, here: nat,
                   code: Byte, p: Info, q: Info, addr1: Bytes, addr2: Bytes,
                   i: Inst, cache1: StdCache, here1: nat, j: Inst, cache2: StdCache, here2: nat)
    requires Emitted(inst, addr, segment, insts, cache, here)
    requires DefaultEntry(code) == Entry(p.itype, p.size, q.itype, q.size)
    requires Queued(p, addr1, cache, here, i, cache1, here1)
    requires Queued(q, addr2, cache1, here1, j, cache2, here2)
    ensures Emitted(inst + [code], addr + (addr1 + addr2), segment, insts + [i, j], cache2, here2)
  {
    hide Parse, DefaultEntry;
    DoubleParses(code, p, q, addr1, addr2, cache, here, i, cache1, here1, j, cache2, here2);
    ParseExtend([], Cursor(inst, addr, InitCache(4, 3), segment), [code], addr1 + addr2);
    assert [] + [code] == [code] && [] + (addr1 + addr2) == addr1 + addr2;
  }

  // ---------------------------------------------------------------------
  // The window encoder
  // ---------------------------------------------------------------------

  datatype SourceWindow = SourceWindow(len: nat, offset: nat)

  datatype Pending = Pending(info: Info, code1: Byte)

  /** The finished sections of a window. */
  datatype WindowSections = WindowSections(
    sourceWindow: Option<SourceWindow>,
    targetLen: nat,
    checksum: Option<nat>,
    data: Bytes,
    inst: Bytes,
    addr: Bytes)

  function SegmentLen(s: Option<SourceWindow>): nat {
    if s.Some? then s.value.len else 0
  }

  // ---------------------------------------------------------------------
  // The packed bytes, as a function of the operations
  // ---------------------------------------------------------------------

  /** The sections, the cache and the pending instruction after some operations. */
  datatype Packed = Packed(
    data: Bytes,
    inst: Bytes,
    addr: Bytes,
    cache: StdCache,
    pending: Option<Pending>,
    targetLen: nat)

  /** INST once the pending instruction has its own opcode. */
  function Flushed(inst: Bytes, pending: Option<Pending>): Bytes {
    if pending.Some? then inst + SingleBytes(pending.value.code1, pending.value.info) else inst
  }

  /** INST and the pending slot after one more instruction. */
  ghost function Queue(inst: Bytes, pending: Option<Pending>, info: Info): (Bytes, Option<Pending>) {
    var prev := if pending.Some? then Some(pending.value.info) else None;
    if IsInstruction(info) && (prev.Some? ==> IsInstruction(prev.value)) then
      var chosen := ChooseInstruction(prev, info);
      if chosen.code2.Some? then (inst + [chosen.code2.value], None)
      else (Flushed(inst, pending), Some(Pending(info, chosen.code1)))
    else (inst, pending)
  }

  ghost function PackInst(p: Packed, info: Info, more: Bytes): Packed {
    var (inst, pending) := Queue(p.inst, p.pending, info);
    p.(inst := inst, pending := pending, data := p.data + more, targetLen := p.targetLen + info.size)
  }

  /** One operation; a copy that does not look back has no form and is passed over. */
  ghost function PackOp(segment: nat, p: Packed, op: Op): Packed {
    match op
    case Literal(bytes) => PackInst(p, Info(ADD, |bytes|), bytes)
    case Repeat(len, byte) => PackInst(p, Info(RUN, len), [byte])
    case CopyFrom(len, addr) =>
      if addr >= segment + p.targetLen then p
      else
        var (mode, bytes) := Preferred(p.cache, addr, segment + p.targetLen);
        PackInst(p.(addr := p.addr + bytes, cache := Remember(p.cache, addr)), Info(CPY + mode, len), [])
  }

  ghost function Pack(segment: nat, ops: seq<Op>): Packed {
    if ops == [] then Packed([], [], [], InitCache(4, 3), None, 0)
    else PackOp(segment, Pack(segment, ops[..|ops| - 1]), ops[|ops| - 1])
  }

  lemma PackSnoc(segment: nat, ops: seq<Op>, op: Op)
    ensures Pack(segment, ops + [op]) == PackOp(segment, Pack(segment, ops), op)
  {
    assert (ops + [op])[..|ops|] == ops;
  }

  lemma PackCopy(segment: nat, ops: seq<Op>, len: nat, addr: nat)
    requires addr < segment + Pack(segment, ops).targetLen
    ensures var p := Pack(segment, ops);
            var (mode, bytes) := Preferred(p.cache, addr, segment + p.targetLen);
            var (inst, pending) := Queue(p.inst, p.pending, Info(CPY + mode, len));
            Pack(segment, ops + [CopyFrom(len, addr)])
            == Packed(p.data, inst, p.addr + bytes, Remember(p.cache, addr), pending, p.targetLen + len)
  {
    hide Pack, Preferred, Queue, Remember;
    PackSnoc(segment, ops, CopyFrom(len, addr));
    var p := Pack(segment, ops);
    assert p.data + [] == p.data;
  }

  /** The sections of a window, determined by its operations. */
  ghost function SectionsOf(source: Option<SourceWindow>, checksum: bool, ops: seq<Op>, target: Option<Bytes>)
    : (s: WindowSections)
    ensures s.checksum.Some? ==> s.checksum.value < U32_BOUND
  {
    var p := Pack(SegmentLen(source), ops);
    WindowSections(
      source, p.targetLen,
      if checksum && target.Some? then Some(Checksum.Adler32(target.value)) else None,
      p.data, Flushed(p.inst, p.pending), p.addr)
  }

  // ---------------------------------------------------------------------
  // Double opcodes are used wherever the table has one
  // ---------------------------------------------------------------------

  function PairOf(p: Info, q: Info): Entry {
    Entry(p.itype, p.size, q.itype, q.size)
  }

  /** The table has an opcode for the two together. */
  ghost predicate HasDouble(p: Info, q: Info) {
    exists code: Byte :: DefaultEntry(code) == PairOf(p, q)
  }

  /** Two neighbouring opcodes for one instruction each are never a pair the table has. */
  ghost predicate Tight(groups: seq<seq<Info>>) {
    forall i, j :: 0 <= i && j == i + 1 < |groups| && |groups[i]| == 1 && |groups[j]| == 1 ==>
      !HasDouble(groups[i][0], groups[j][0])
  }

  /**
    A pending instruction and the next one become one opcode exactly if the table
    has one for the pair; otherwise the pending one gets its own and the next waits.
    */
  lemma QueuePairs(inst: Bytes, p: Pending, info: Info)
    requires IsInstruction(info) && IsInstruction(p.info)
    ensures forall code: Byte :: DefaultEntry(code) == Entry(p.info.itype, p.info.size, info.itype, info.size) ==>
              Queue(inst, Some(p), info) == (inst + [code], None)
    ensures !HasDouble(p.info, info) ==>
              var (inst', pending) := Queue(inst, Some(p), info);
              inst' == inst + SingleBytes(p.code1, p.info) && pending.Some? && pending.value.info == info
  {
    hide ChooseInstruction, DefaultEntry;
    forall code: Byte | DefaultEntry(code) == Entry(p.info.itype, p.info.size, info.itype, info.size)
      ensures Queue(inst, Some(p), info) == (inst + [code], None)
    {
      DoubleOpcode(p.info, info, code);
    }
    var chosen := ChooseInstruction(Some(p.info), info);
    if chosen.code2.Some? {
      DoubleOpcode(p.info, info, chosen.code2.value);
    }
  }

  lemma QueueFirst(inst: Bytes, info: Info)
    requires IsInstruction(info)
    ensures var (inst', pending) := Queue(inst, None, info);
            inst' == inst && pending.Some? && pending.value.info == info
  {
    hide ChooseInstruction;
    if ChooseInstruction(None, info).code2.Some? {
      NoDoubleWithoutPrev(None, info);
    }
  }

  /** What is waiting has an opcode of its own. */
  ghost predicate Waiting(pending: Option<Pending>) {
    pending.Some? ==>
      && IsInstruction(pending.value.info) && pending.value.info.size < U32_BOUND
      && IsSingle(pending.value.code1, pending.value.info)
  }

  ghost function Group(pending: Option<Pending>): seq<seq<Info>> {
    if pending.Some? then [[pending.value.info]] else []
  }

  /** INST and the pending instruction, opcode by opcode. */
  ghost predicate TightSo(inst: Bytes, pending: Option<Pending>) {
    && Waiting(pending)
    && Opcodes(inst).Some? && Tight(Opcodes(inst).value + Group(pending))
    && (pending.None? ==> EndsDouble(Opcodes(inst).value))
  }

  /** Nothing waits only at the start and behind a double opcode. */
  ghost predicate EndsDouble(groups: seq<seq<Info>>) {
    groups != [] ==> |groups[|groups| - 1]| == 2
  }

  lemma SingleGroup(code: Byte, info: Info)
    requires IsSingle(code, info) && IsInstruction(info) && info.size < U32_BOUND
    ensures Opcodes(SingleBytes(code, info)) == Some([[info]])
  {
    hide DefaultEntry;
    var size, bytes := DefaultEntry(code).size1, SingleBytes(code, info);
    var h := Info(info.itype, size);
    assert bytes[1..] == if size == 0 then Varint.Encode(info.size) else [];
    assert TakeSize(size, bytes[1..]) == Some((info.size, [])) by {
      if size == 0 {
        Varint.ReadEncode(info.size, [], U32_BOUND);
        assert bytes[1..] + [] == bytes[1..];
      }
    }
    assert Halves(code) == [h];
    assert [h][1..] == [];
    assert TakeSizes([h], bytes[1..]) == Some(([info] + [], []));
    assert [info] + [] == [info] && [[info]] + [] == [[info]];
  }

  lemma DoubleGroup(code: Byte, p: Info, q: Info)
    requires DefaultEntry(code) == Entry(p.itype, p.size, q.itype, q.size) && IsInstruction(p) && IsInstruction(q)
    ensures Opcodes([code]) == Some([[p, q]])
  {
    hide DefaultEntry;
    assert [code][1..] == [];
    assert Halves(code) == [p, q];
    assert [p, q][1..] == [q] && [q][1..] == [];
    assert TakeSizes([q], []) == Some(([q] + [], []));
    assert [p] + ([q] + []) == [p, q] && [[p, q]] + [] == [[p, q]];
  }

  lemma TightPair(groups: seq<seq<Info>>, p: Info, q: Info)
    requires Tight(groups + [[p]])
    ensures Tight(groups + [[p, q]])
  {
    hide HasDouble;
    var old', new' := groups + [[p]], groups + [[p, q]];
    assert forall i :: 0 <= i < |groups| ==> old'[i] == new'[i];
  }

  lemma TightNext(groups: seq<seq<Info>>, q: Info)
    requires Tight(groups)
    requires groups != [] && |groups[|groups| - 1]| == 1 ==> !HasDouble(groups[|groups| - 1][0], q)
    ensures Tight(groups + [[q]])
  {
    hide HasDouble;
    var new' := groups + [[q]];
    assert forall i :: 0 <= i < |groups| ==> new'[i] == groups[i];
  }

  /** One more instruction keeps the packing tight. */
  lemma QueueTight(inst: Bytes, pending: Option<Pending>, info: Info)
    requires TightSo(inst, pending) && IsInstruction(info) && info.size < U32_BOUND
    ensures TightSo(Queue(inst, pending, info).0, Queue(inst, pending, info).1)
  {
    hide ChooseInstruction, DefaultEntry, Opcodes, Tight, HasDouble, SingleBytes;
    var g := Opcodes(inst).value;
    var prev := if pending.Some? then Some(pending.value.info) else None;
    var chosen := ChooseInstruction(prev, info);
    SingleOpcode(prev, info);
    if pending.None? {
      assert g + [] == g;
      QueueFirst(inst, info);
      TightNext(g, info);
    } else if chosen.code2.Some? {
      var p, code := pending.value.info, chosen.code2.value;
      DoubleOpcode(p, info, code);
      DoubleGroup(code, p, info);
      OpcodesAppend(inst, [code]);
      TightPair(g, p, info);
      assert (g + [[p, info]]) + [] == g + [[p, info]];
    } else {
      var p := pending.value.info;
      assert !HasDouble(p, info) by {
        NoDouble(p, info);
      }
      SingleGroup(pending.value.code1, p);
      OpcodesAppend(inst, SingleBytes(pending.value.code1, p));
      TightNext(g + [[p]], info);
    }
  }

  lemma NoDouble(p: Info, info: Info)
    requires IsInstruction(p) && IsInstruction(info) && ChooseInstruction(Some(p), info).code2.None?
    ensures !HasDouble(p, info)
  {
    hide ChooseInstruction, DefaultEntry;
    forall code: Byte
      ensures DefaultEntry(code) != Entry(p.itype, p.size, info.itype, info.size)
    {
      DoubleOpcode(p, info, code);
    }
  }

  /** Every operation is longer than nothing and fits 32 bits. */
  ghost predicate Writable(ops: seq<Op>) {
    forall i :: 0 <= i < |ops| ==> 0 < OpLen(ops[i]) < U32_BOUND
  }

  lemma {:induction false} PackTight(segment: nat, ops: seq<Op>)
    requires Writable(ops)
    ensures TightSo(Pack(segment, ops).inst, Pack(segment, ops).pending)
    decreases |ops|
  {
    hide TightSo, Queue;
    if ops == [] {
      NothingPacked();
    } else {
      var n := |ops| - 1;
      PackTight(segment, ops[..n]);
      PackOpTight(segment, Pack(segment, ops[..n]), ops[n]);
    }
  }

  lemma NothingPacked()
    ensures TightSo([], None)
  {
    assert [] + Group(None) == [];
  }

  lemma PackOpTight(segment: nat, p: Packed, op: Op)
    requires TightSo(p.inst, p.pending) && 0 < OpLen(op) < U32_BOUND
    ensures TightSo(PackOp(segment, p, op).inst, PackOp(segment, p, op).pending)
  {
    hide TightSo, Queue, Preferred;
    match op
    case Literal(bytes) =>
      QueueTight(p.inst, p.pending, Info(ADD, |bytes|));
    case Repeat(len, byte) =>
      QueueTight(p.inst, p.pending, Info(RUN, len));
    case CopyFrom(len, addr) =>
      if addr < segment + p.targetLen {
        QueueTight(p.inst, p.pending, Info(CPY + Preferred(p.cache, addr, segment + p.targetLen).0, len));
      }
  }

  /**
    In finished sections a double opcode stands wherever two instructions would
    otherwise stand alone next to each other and the table has one for the pair.
    */
  lemma SectionsTight(source: Option<SourceWindow>, checksum: bool, ops: seq<Op>, target: Option<Bytes>)
    requires Writable(ops)
    ensures var groups := Opcodes(SectionsOf(source, checksum, ops, target).inst);
            groups.Some? && Tight(groups.value)
  {
    hide Opcodes, Tight, Pack, SingleBytes;
    var p := Pack(SegmentLen(source), ops);
    PackTight(SegmentLen(source), ops);
    if p.pending.Some? {
      SingleGroup(p.pending.value.code1, p.pending.value.info);
      OpcodesAppend(p.inst, SingleBytes(p.pending.value.code1, p.pending.value.info));
    } else {
      assert Opcodes(p.inst).value + [] == Opcodes(p.inst).value;
    }
  }

  // ---------------------------------------------------------------------
  // The encoder object
  // ---------------------------------------------------------------------

  class WindowEncoder {
    var dataSection: Bytes
    var instSection: Bytes
    var addrSection: Bytes
    const acache: AddressCache
    var pending: Option<Pending>
    var targetLen: nat
    const sourceWindow: Option<SourceWindow>
    const emitChecksum: bool

    /** The operations accepted so far, and the instructions they were encoded as. */
    ghost var ops: seq<Op>
    ghost var insts: seq<Inst>

    /** Where ADDR, cache and position stood before the pending instruction. */
    ghost var flushedAddr: nat
    ghost var flushedCache: StdCache
    ghost var flushedHere: nat

    /**
      INST, with the pending instruction put behind it, and the first `addrLen`
      bytes of ADDR are read back as `insts`, ending at the given cache and position.
      */
    ghost predicate Consistent(addrLen: nat, cache: StdCache, here: nat)
      reads `instSection, `addrSection, `pending, `insts, `flushedAddr, `flushedCache, `flushedHere
    {
      && flushedAddr <= addrLen <= |addrSection|
      && |instSection| + (if pending.Some? then 6 else 0) <= 6 * |insts|
      && match pending
         case None =>
           && flushedAddr == addrLen
           && Emitted(instSection, addrSection[..addrLen], SegmentLen(sourceWindow), insts, cache, here)
         case Some(p) =>
           && insts != []
           && IsSingle(p.code1, p.info)
           && Emitted(instSection, addrSection[..flushedAddr], SegmentLen(sourceWindow),
                      insts[..|insts| - 1], flushedCache, flushedHere)
           && Queued(p.info, addrSection[flushedAddr..addrLen], flushedCache, flushedHere,
                     insts[|insts| - 1], cache, here)
    }

    ghost predicate Valid()
      reads this, acache, acache.near, acache.same
    {
      && acache.Valid()
      && acache.near.Length == 4 && acache.same.Length == 768
      && Consistent(|addrSection|, acache.State(), Here())
      && Bind(insts, dataSection) == Some((ops, []))
      && |dataSection| <= targetLen
      && |addrSection| <= 10 * |insts|
      && |insts| == |ops| <= targetLen
      && Shows(Pack(SegmentLen(sourceWindow), ops))
    }

    /** The fields hold exactly these bytes, this cache and this pending instruction. */
    ghost predicate Shows(p: Packed)
      reads this, acache, acache.near, acache.same
    {
      && p.data == dataSection && p.inst == instSection && p.addr == addrSection
      && p.cache == acache.State() && p.pending == pending && p.targetLen == targetLen
    }

    function Here(): nat
      reads this
    {
      SegmentLen(sourceWindow) + targetLen
    }

    constructor (source: Option<SourceWindow>, checksum: bool)
      ensures Valid() && fresh(acache) && fresh(acache.near) && fresh(acache.same)
      ensures sourceWindow == source && emitChecksum == checksum
      ensures ops == [] && targetLen == 0
    {
      dataSection, instSection, addrSection := [], [], [];
      acache := new AddressCache(4, 3);
      pending := None;
      targetLen := 0;
      sourceWindow := source;
      emitChecksum := checksum;
      ops, insts := [], [];
      flushedAddr := 0;
      flushedCache := InitCache(4, 3);
      flushedHere := 0;
      new;
      assert addrSection[..0] == [];
    }

    method EmitOpcodeSingle(code: Byte, info: Info)
      requires info.size < U32_BOUND
      modifies this`instSection
      ensures instSection == old(instSection) + SingleBytes(code, info)
      ensures |instSection| <= |old(instSection)| + 6
    {
      instSection := instSection + [code];
      if DefaultEntry(code).size1 == 0 {
        var buf := new Byte[10](_ => 0);
        var len := Varint.EncodeU64(info.size, buf);
        Varint.SizeofExact(info.size);
        instSection := instSection + buf[10 - len..];
      }
    }

    /** Gives the pending instruction its own opcode. */
    method FlushPending(ghost addrLen: nat, ghost cache: StdCache, ghost here: nat)
      requires Consistent(addrLen, cache, here)
      modifies this`instSection, this`pending, this`flushedAddr
      ensures Consistent(addrLen, cache, here)
      ensures pending == None && instSection == Flushed(old(instSection), old(pending))
    {
      hide Parse, ParseSized, Emitted, IsSingle;
      if pending.Some? {
        var p := pending.value;
        pending := None;
        EmitSingle(instSection, addrSection[..flushedAddr], SegmentLen(sourceWindow), insts[..|insts| - 1],
                   flushedCache, flushedHere, p.code1, p.info, addrSection[flushedAddr..addrLen],
                   insts[|insts| - 1], cache, here);
        assert addrSection[..flushedAddr] + addrSection[flushedAddr..addrLen] == addrSection[..addrLen];
        assert insts[..|insts| - 1] + [insts[|insts| - 1]] == insts;
        EmitOpcodeSingle(p.code1, p.info);
        flushedAddr := addrLen;
      }
    }

    /** One opcode for the pending instruction and the new one. */
    method EmitOpcodeDouble(code: Byte, info: Info, ghost i: Inst, ghost addrLen: nat, ghost cache: StdCache,
                            ghost here: nat, ghost cache': StdCache, ghost here': nat)
      requires Consistent(addrLen, cache, here)
      requires Queued(info, addrSection[addrLen..], cache, here, i, cache', here')
      requires pending.Some? && DefaultEntry(code)
            == Entry(pending.value.info.itype, pending.value.info.size, info.itype, info.size)
      modifies this`instSection, this`pending, this`insts, this`flushedAddr
      ensures insts == old(insts) + [i] && pending == None && instSection == old(instSection) + [code]
      ensures Consistent(|addrSection|, cache', here')
    {
      hide DefaultEntry, Emitted, Queued, IsSingle;
      EmitDouble(instSection, addrSection[..flushedAddr], SegmentLen(sourceWindow), insts[..|insts| - 1],
                 flushedCache, flushedHere, code, pending.value.info, info,
                 addrSection[flushedAddr..addrLen], addrSection[addrLen..],
                 insts[|insts| - 1], cache, here, i, cache', here');
      ThreeParts(addrSection, flushedAddr, addrLen);
      assert insts[..|insts| - 1] + [insts[|insts| - 1], i] == insts + [i];
      pending := None;
      instSection := instSection + [code];
      flushedAddr := |addrSection|;
      insts := insts + [i];
    }

    /** Packs the instruction with the pending one, or makes it the pending one. */
    method EmitInstruction(info: Info, ghost i: Inst, ghost addrLen: nat, ghost cache: StdCache, ghost here: nat,
                           ghost cache': StdCache, ghost here': nat)
      requires Consistent(addrLen, cache, here)
      requires Queued(info, addrSection[addrLen..], cache, here, i, cache', here')
      modifies this`instSection, this`pending, this`insts, this`flushedAddr, this`flushedCache, this`flushedHere
      ensures insts == old(insts) + [i] && (instSection, pending) == Queue(old(instSection), old(pending), info)
      ensures forall code: Byte ::
                old(pending).Some? && DefaultEntry(code) == PairOf(old(pending).value.info, info) ==>
                instSection == old(instSection) + [code] && pending == None
      ensures old(pending).None? || !HasDouble(old(pending).value.info, info) ==>
                pending.Some? && pending.value.info == info
      ensures Consistent(|addrSection|, cache', here')
    {
      hide ChooseInstruction, DefaultEntry, Emitted, Parse, ParseSized;
      if pending.Some? {
        QueuePairs(instSection, pending.value, info);
      } else {
        QueueFirst(instSection, info);
      }
      var prev := if pending.Some? then Some(pending.value.info) else None;
      var chosen := ChooseInstruction(prev, info);
      SingleOpcode(prev, info);
      if chosen.code2.Some? {
        NoDoubleWithoutPrev(prev, info);
        DoubleOpcode(prev.value, info, chosen.code2.value);
        EmitOpcodeDouble(chosen.code2.value, info, i, addrLen, cache, here, cache', here');
      } else {
        FlushPending(addrLen, cache, here);
        pending := Some(Pending(info, chosen.code1));
        flushedAddr, flushedCache, flushedHere := addrLen, cache, here;
        assert (insts + [i])[..|insts|] == insts;
        assert addrSection[addrLen..|addrSection|] == addrSection[addrLen..];
        insts := insts + [i];
      }
    }

    /** ADD with literal bytes. */
    method Add(data: Bytes)
      requires Valid() && |data| < U32_BOUND
      modifies this
      ensures Valid()
      ensures data == [] ==> unchanged(this)
      ensures data != [] ==> ops == old(ops) + [Literal(data)] && targetLen == old(targetLen) + |data|
    {
      hide Emitted, Queued, IsSingle, Bind, Pack, Queue, Consistent;
      if data == [] {
        return;
      }
      PackSnoc(SegmentLen(sourceWindow), ops, Literal(data));
      assert addrSection[|addrSection|..] == [];
      assert data[..|data|] == data && data[|data|..] == [];
      BindMore(insts, Instructions.Add(|data|), dataSection, data, ops, Literal(data));
      dataSection := dataSection + data;
      ghost var cache, here := acache.State(), Here();
      QueuedLiteral(ADD, |data|, cache, here);
      EmitInstruction(Info(ADD, |data|), Instructions.Add(|data|), |addrSection|, cache, here, cache, here + |data|);
      targetLen := targetLen + |data|;
      ops := ops + [Literal(data)];
    }

    /** RUN of one byte. */
    method Run(len: nat, byte: Byte)
      requires Valid() && len < U32_BOUND
      modifies this
      ensures Valid()
      ensures len == 0 ==> unchanged(this)
      ensures len != 0 ==> ops == old(ops) + [Repeat(len, byte)] && targetLen == old(targetLen) + len
    {
      hide Emitted, Queued, IsSingle, Bind, Pack, Queue, Consistent;
      if len == 0 {
        return;
      }
      PackSnoc(SegmentLen(sourceWindow), ops, Repeat(len, byte));
      assert addrSection[|addrSection|..] == [];
      assert [byte][1..] == [];
      BindMore(insts, Instructions.Run(len), dataSection, [byte], ops, Repeat(len, byte));
      dataSection := dataSection + [byte];
      ghost var cache, here := acache.State(), Here();
      QueuedLiteral(RUN, len, cache, here);
      EmitInstruction(Info(RUN, len), Instructions.Run(len), |addrSection|, cache, here, cache, here + len);
      targetLen := targetLen + len;
      ops := ops + [Repeat(len, byte)];
    }

    /** The address bytes of a COPY, and the mode they are in. */
    method WriteAddress(len: nat, addr: nat) returns (mode: nat)
      requires Valid() && 0 < len < U32_BOUND && addr < Here() && addr < U64_BOUND
      modifies this`addrSection, acache, acache.near, acache.same
      ensures acache.Valid() && acache.State() == Remember(old(acache.State()), addr)
      ensures old(addrSection) <= addrSection && |addrSection| <= |old(addrSection)| + 10
      ensures (mode, addrSection[|old(addrSection)|..]) == Preferred(old(acache.State()), addr, Here())
      ensures Consistent(|old(addrSection)|, old(acache.State()), Here())
      ensures Queued(Info(CPY + mode, len), addrSection[|old(addrSection)|..], old(acache.State()), Here(),
                     Instructions.Copy(len, addr, mode), acache.State(), Here() + len)
    {
      hide Emitted, Queued, IsSingle, IsForm, NoneShorter, Remember, Bind, Pack, Preferred;
      ghost var n, cache, addr0 := |addrSection|, acache.State(), addrSection;
      var bytes;
      mode, bytes := acache.Encode(addr, Here());
      addrSection := addrSection + bytes;
      assert addrSection[n..] == bytes && addrSection[..n] == addr0;
      assert addrSection[..flushedAddr] == addr0[..flushedAddr];
      assert addrSection[flushedAddr..n] == addr0[flushedAddr..n];
      QueuedCopy(len, addr, mode, bytes, cache, Here());
    }

    /** COPY from an address before the current position. */
    method Copy(len: nat, addr: nat)
      requires Valid() && len < U32_BOUND
      requires len != 0 ==> addr < Here() && addr < U64_BOUND
      modifies this, acache, acache.near, acache.same
      ensures Valid()
      ensures len == 0 ==> unchanged(this)
      ensures len != 0 ==> ops == old(ops) + [CopyFrom(len, addr)] && targetLen == old(targetLen) + len
    {
      hide Emitted, Queued, IsSingle, Remember, Bind, Pack, PackOp, PackInst, Queue, Preferred, Consistent;
      if len == 0 {
        return;
      }
      PackCopy(SegmentLen(sourceWindow), ops, len, addr);
      ghost var n, cache, here := |addrSection|, acache.State(), Here();
      var mode := WriteAddress(len, addr);
      ghost var i := Instructions.Copy(len, addr, mode);
      assert dataSection + [] == dataSection;
      BindMore(insts, i, dataSection, [], ops, CopyFrom(len, addr));
      EmitInstruction(Info(CPY + mode, len), i, n, cache, here, acache.State(), here + len);
      targetLen := targetLen + len;
      ops := ops + [CopyFrom(len, addr)];
      assert addrSection == addrSection[..n] + addrSection[n..];
    }

    /**
      Flushes and hands out the sections. Read back, they are exactly the
      operations that were accepted.
      */
    method FinishSections(targetData: Option<Bytes>) returns (s: WindowSections)
      requires Valid()
      modifies this
      ensures s.sourceWindow == sourceWindow && s.targetLen == targetLen == old(targetLen)
      ensures s.checksum == if emitChecksum && targetData.Some? then Some(Checksum.Adler32(targetData.value)) else None
      ensures ops == old(ops)
      ensures Encodes(s, ops) && s == SectionsOf(sourceWindow, emitChecksum, ops, targetData)
    {
      hide Parse, Pack, Bind;
      FlushPending(|addrSection|, acache.State(), Here());
      var checksum := None;
      if emitChecksum && targetData.Some? {
        var c := Checksum.ComputeAdler32(targetData.value);
        checksum := Some(c);
      }
      assert addrSection[..|addrSection|] == addrSection;
      s := WindowSections(sourceWindow, targetLen, checksum, dataSection, instSection, addrSection);
      assert Recorded(s, insts, ops);
    }
  }

  lemma ThreeParts(s: Bytes, i: nat, j: nat)
    requires i <= j <= |s|
    ensures s[..i] + (s[i..j] + s[j..]) == s[..|s|]
  {
    assert s[i..j] + s[j..] == s[i..];
  }

  /** The sections parse to `insts`, which take all of DATA and become `ops`. */
  ghost predicate Recorded(s: WindowSections, insts: seq<Inst>, ops: seq<Op>) {
    && Parse([], Cursor(s.inst, s.addr, InitCache(4, 3), SegmentLen(s.sourceWindow))).Some?
    && Parse([], Cursor(s.inst, s.addr, InitCache(4, 3), SegmentLen(s.sourceWindow))).value.0 == insts
    && Bind(insts, s.data) == Some((ops, []))
  }

  /** The sections mean `ops`, and are not longer than a few bytes per target byte. */
  ghost predicate Encodes(s: WindowSections, ops: seq<Op>) {
    && (exists insts :: Recorded(s, insts, ops))
    && |s.data| <= s.targetLen && |s.inst| <= 6 * s.targetLen && |s.addr| <= 10 * s.targetLen
  }

  lemma NoDoubleWithoutPrev(prev: Option<Info>, info: Info)
    requires IsInstruction(info) && (prev.Some? ==> IsInstruction(prev.value))
    requires ChooseInstruction(prev, info).code2.Some?
    ensures prev.Some?
  {
  }

  lemma BindMore(insts: seq<Inst>, i: Inst, data: Bytes, more: Bytes, ops: seq<Op>, op: Op)
    requires Bind(insts, data) == Some((ops, []))
    requires BindOne(i, more) == Some((op, []))
    ensures Bind(insts + [i], data + more) == Some((ops + [op], []))
  {
    hide BindOne;
    BindExtend(insts, [i], data, more);
    assert [] + more == more;
    assert [i][1..] == [];
    assert Bind([i], more) == Some(([op] + [], []));
    assert [op] + [] == [op];
  }

  lemma QueuedLiteral(itype: nat, len: nat, cache: StdCache, here: nat)
    requires itype == ADD || itype == RUN
    requires 0 < len < U32_BOUND
    ensures Queued(Info(itype, len), [], cache, here,
                   if itype == ADD then Instructions.Add(len) else Instructions.Run(len), cache, here + len)
  {
  }

  lemma QueuedCopy(len: nat, addr: nat, mode: nat, bytes: Bytes, cache: StdCache, here: nat)
    requires 0 < len < U32_BOUND
    requires WellFormed(cache) && IsForm(cache, addr, here, mode, bytes)
    ensures Queued(Info(CPY + mode, len), bytes, cache, here,
                   Instructions.Copy(len, addr, mode), Remember(cache, addr), here + len)
  {
    hide Decode, Remember;
    assert bytes[|bytes|..] == [];
  }

  // ---------------------------------------------------------------------
  // Assembling a window
  // ---------------------------------------------------------------------

  function HeaderOf(s: WindowSections, delInd: Byte): WindowHeader {
    var h := WindowHeader(
      (if s.sourceWindow.Some? then 1 else 0) + (if s.checksum.Some? then 4 else 0),
      SegmentLen(s.sourceWindow),
      if s.sourceWindow.Some? then s.sourceWindow.value.offset else 0,
      0, s.targetLen, delInd, |s.data|, |s.inst|, |s.addr|, s.checksum);
    h.(encLen := ComputeEncLen(h))
  }

  function Assemble(s: WindowSections, delInd: Byte): Bytes
    requires s.checksum.Some? ==> s.checksum.value < U32_BOUND
  {
    EncodeWindowHeader(HeaderOf(s, delInd)) + s.data + s.inst + s.addr
  }

  /** Every number in the header fits its field. */
  ghost predicate FitsHeader(s: WindowSections) {
    && SegmentLen(s.sourceWindow) < U64_BOUND
    && (s.sourceWindow.Some? ==> s.sourceWindow.value.offset < U64_BOUND)
    && s.targetLen < U32_BOUND
    && |s.data| <= s.targetLen && |s.inst| <= 6 * s.targetLen && |s.addr| <= 10 * s.targetLen
    && (s.checksum.Some? ==> s.checksum.value < U32_BOUND)
  }

  lemma HeaderValid(s: WindowSections, delInd: Byte)
    requires FitsHeader(s) && delInd < 8
    ensures ValidWindowHeader(HeaderOf(s, delInd))
  {
    hide Varint.SizeofU64;
    var h := HeaderOf(s, delInd);
    SizeofSmall(h.targetWindowLen);
    SizeofSmall(h.dataLen);
    SizeofSmall(h.instLen);
    SizeofSmall(h.addrLen);
  }

  lemma SizeofSmall(n: nat)
    ensures Varint.SizeofU64(n) <= 10
  {
  }

  /** An assembled window is read back as its header, right in front of its sections. */
  lemma AssembleRead(s: WindowSections, delInd: Byte, rest: Bytes)
    requires FitsHeader(s) && delInd < 8
    ensures DecodeWindowHeader(Assemble(s, delInd) + rest)
         == if s.targetLen <= HARD_MAX_WINSIZE
            then Ok(Some((HeaderOf(s, delInd), s.data + (s.inst + (s.addr + rest))))) else Err(Io)
  {
    hide DecodeWindowHeader, EncodeWindowHeader;
    var h := HeaderOf(s, delInd);
    var head, tail := EncodeWindowHeader(h), s.data + (s.inst + (s.addr + rest));
    assert Assemble(s, delInd) + rest == head + tail;
    HeaderValid(s, delInd);
    WindowHeaderRoundTrip(h, tail);
  }

  /** The window's `enc_len` is the number of bytes behind that field. */
  lemma AssembleEncLen(s: WindowSections, delInd: Byte)
    requires FitsHeader(s) && delInd < 8
    ensures var h := HeaderOf(s, delInd);
            |Assemble(s, delInd)| == 1 + |CopyWindowBytes(h)| + |Varint.Encode(h.encLen)| + h.encLen
  {
    hide LengthBytes, ComputeEncLen, Varint.Encode;
    HeaderValid(s, delInd);
    EncLenExact(HeaderOf(s, delInd), s.data, s.inst, s.addr);
  }
}
