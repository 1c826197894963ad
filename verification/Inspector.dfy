/** Inspection of a window's instructions without executing them. */
module Inspector {
  import opened Base
  import opened Instructions
  import opened Addressing
  import opened CodeTable
  import opened Sections
  import opened Headers
  import opened Decoder

  class InstructionIterator {
    const instData: Bytes
    const addrData: Bytes
    var instPos: nat
    var addrPos: nat
    const acache: AddressCache
    const copyWindowLen: nat
    var targetPos: nat
    var pendingSecond: Option<Info>

    ghost predicate Valid()
      reads this, acache, acache.near, acache.same
    {
      && StdShape(acache)
      && instPos <= |instData| && addrPos <= |addrData|
      && (pendingSecond.Some? ==> IsHalf(pendingSecond.value))
    }

    ghost function Position(): Cursor
      requires Valid()
      reads this, acache, acache.near, acache.same
    {
      Cursor(instData[instPos..], addrData[addrPos..], acache.State(), copyWindowLen + targetPos)
    }

    ghost function Queue(): (q: seq<Info>)
      requires Valid()
      reads this, acache, acache.near, acache.same
      ensures forall i :: 0 <= i < |q| ==> IsHalf(q[i])
    {
      if pendingSecond.Some? then [pendingSecond.value] else []
    }

    /** What is still to come, by the reference parser. */
    ghost function ToCome(): Option<(seq<Inst>, Cursor)>
      requires Valid()
      reads this, acache, acache.near, acache.same
    {
      Parse(Queue(), Position())
    }

    constructor (inst: Bytes, addr: Bytes, segment: nat)
      ensures Valid() && fresh(acache) && fresh(acache.near) && fresh(acache.same)
      ensures ToCome() == Parse([], Cursor(inst, addr, InitCache(4, 3), segment))
      ensures instData == inst && instPos == 0 && pendingSecond == None
    {
      hide Parse;
      instData, addrData := inst, addr;
      instPos, addrPos := 0, 0;
      acache := new AddressCache(4, 3);
      copyWindowLen := segment;
      targetPos := 0;
      pendingSecond := None;
      new;
      assert instData[0..] == inst && addrData[0..] == addr;
    }

    /** Resolves an instruction whose size is known. */
    method ResolveSized(itype: nat, size: nat) returns (r: Option<Inst>)
      requires Valid() && ADD <= itype < CPY + MODES
      modifies this`addrPos, this`targetPos, acache, acache.near, acache.same
      ensures Valid()
      ensures var p := ParseSized(itype, size, old(Position()));
              (p.None? ==> r == None) && (p.Some? ==> r == Some(p.value.0) && Position() == p.value.1)
    {
      hide Decode;
      if itype == RUN {
        r := Some(Instructions.Run(size));
      } else if itype == ADD {
        r := Some(Instructions.Add(size));
      } else {
        var a := acache.DecodeAddress(itype - CPY, addrData[addrPos..], copyWindowLen + targetPos);
        if a.None? {
          return None;
        }
        assert addrData[addrPos..][a.value.1..] == addrData[addrPos + a.value.1..];
        addrPos := addrPos + a.value.1;
        r := Some(Instructions.Copy(size, a.value.0, itype - CPY));
      }
      targetPos := targetPos + size;
    }

    /** Resolves one half-instruction, advancing the cursors. */
    method ResolveHalf(h: Info) returns (r: Option<Inst>)
      requires Valid() && IsHalf(h)
      modifies this`instPos, this`addrPos, this`targetPos, acache, acache.near, acache.same
      ensures Valid() && instPos >= old(instPos)
      ensures var p := ParseHalf(h, old(Position()));
              (p.None? ==> r == None) && (p.Some? ==> r == Some(p.value.0) && Position() == p.value.1)
    {
      hide TakeSize, ParseSized;
      var sized := ResolveSize(h.size, instData, instPos);
      if sized.None? {
        return None;
      }
      instPos := sized.value.1;
      r := ResolveSized(h.itype, sized.value.0);
    }

    /** The next instruction: none at the end, an error when the sections are malformed. */
    method Next() returns (r: Option<Result<Inst>>)
      requires Valid()
      modifies this, acache, acache.near, acache.same
      ensures Valid()
      ensures instPos > old(instPos) || (instPos == old(instPos) && (pendingSecond.None? || r == None))
      ensures old(pendingSecond).Some? || old(instPos) < |instData| ==> r.Some?
      ensures old(pendingSecond).None? && r.Some? ==> instPos > old(instPos)
      ensures match r
              case None => old(ToCome()).Some? && old(ToCome()).value.0 == []
              case Some(Err(_)) => old(ToCome()) == None
              case Some(Ok(i)) => old(ToCome()) == InFront(i, ToCome())
    {
      hide ParseHalf, DefaultEntry;
      if pendingSecond.Some? {
        var h := pendingSecond.value;
        pendingSecond := None;
        ParseHead(h, [], Position());
        assert [h] + [] == [h];
        var i := ResolveHalf(h);
        if i.Some? {
          return Some(Ok(i.value));
        }
        return Some(Err(InvalidInput));
      }
      if instPos >= |instData| {
        return None;
      }
      var opcode := instData[instPos];
      assert instData[instPos..][1..] == instData[instPos + 1..];
      instPos := instPos + 1;
      var entry := DefaultEntry(opcode);
      EntryShape(opcode);
      if entry.type2 != NOOP {
        pendingSecond := Some(Info(entry.type2, entry.size2));
      }
      var h := Info(entry.type1, entry.size1);
      assert Halves(opcode) == [h] + Queue();
      ParseHead(h, Queue(), Position());
      var i := ResolveHalf(h);
      if i.Some? {
        return Some(Ok(i.value));
      }
      return Some(Err(InvalidInput));
    }
  }

  /** All instructions of a window, up to the first error. */
  method Collect(inst: Bytes, addr: Bytes, segment: nat) returns (insts: seq<Inst>, ok: bool)
    ensures var parsed := Parse([], Cursor(inst, addr, InitCache(4, 3), segment));
            (ok <==> parsed.Some?) && (ok ==> insts == parsed.value.0)
  {
    hide Parse, InFront, Prepend, InstructionIterator.ToCome, InstructionIterator.Position, InstructionIterator.Queue;
    var it := new InstructionIterator(inst, addr, segment);
    ghost var parsed := it.ToCome();
    insts, ok := [], true;
    PrependNothing(parsed);
    while true
      invariant it.Valid() && fresh(it) && fresh(it.acache) && fresh(it.acache.near) && fresh(it.acache.same)
      invariant parsed == Prepend(insts, it.ToCome())
      decreases |it.instData| - it.instPos, if it.pendingSecond.Some? then 1 else 0
    {
      ghost var before := it.ToCome();
      var r := it.Next();
      if r.None? {
        PrependLast(insts, before.value.1);
        return;
      }
      if r.value.Err? {
        PrependFailed(insts);
        return insts, false;
      }
      PrependInFront(insts, r.value.value, it.ToCome());
      insts := insts + [r.value.value];
    }
  }

  /** A window that decodes replays the parsed instructions, which are as long as the window. */
  lemma ParsedReplays(h: WindowHeader, data: Bytes, inst: Bytes, addr: Bytes, source: Bytes, verify: bool)
    requires DecodeSections(h, data, inst, addr, source, verify).Ok?
    ensures var parsed := Parse([], Start(inst, addr, WindowOf(h, source)));
            && parsed.Some?
            && TotalLen(parsed.value.0) == h.targetWindowLen
            && Bind(parsed.value.0, data).Some?
            && Replay(WindowOf(h, source), [], Bind(parsed.value.0, data).value.0)
               == Some(DecodeSections(h, data, inst, addr, source, verify).value)
  {
    var insts := Parse([], Start(inst, addr, WindowOf(h, source))).value.0;
    var ops := Bind(insts, data).value.0;
    ReplayLength(WindowOf(h, source), [], insts, data, ops);
  }

  /**
    Inspection agrees with execution: when the machine decodes a window, the
    iterator yields, without error, exactly the instructions the machine
    executed. They are as long as the window, and replaying them gives its bytes.
    */
  method InspectDecoded(h: WindowHeader, data: Bytes, inst: Bytes, addr: Bytes, source: Bytes, verify: bool,
                        output: Bytes, acache: AddressCache)
    returns (r: Result<()>, result: Bytes, ghost executed: seq<Inst>, inspected: seq<Inst>, ok: bool)
    requires StdShape(acache)
    modifies acache, acache.near, acache.same
    ensures output <= result
    ensures r.Ok? ==> ok && inspected == executed && TotalLen(inspected) == h.targetWindowLen
    ensures r.Ok? ==>
              && Bind(inspected, data).Some?
              && Replay(WindowOf(h, source), [], Bind(inspected, data).value.0) == Some(result[|output|..])
  {
    hide Parse, Bind, Replay, DecodeSections;
    r, result, executed := DecodeWindowWithCache(h, data, inst, addr, source, verify, output, acache);
    inspected, ok := Collect(inst, addr, h.copyWindowLen);
    if r.Ok? {
      ParsedReplays(h, data, inst, addr, source, verify);
      assert result[|output|..] == DecodeSections(h, data, inst, addr, source, verify).value;
    }
  }

  lemma {:induction false} ReplayLength(w: Window, out: Bytes, insts: seq<Inst>, data: Bytes, ops: seq<Op>)
    requires Bind(insts, data).Some? && Bind(insts, data).value.0 == ops
    requires Replay(w, out, ops).Some?
    ensures |Replay(w, out, ops).value| == |out| + TotalLen(insts)
    decreases |insts|
  {
    if insts != [] {
      var (op, rest) := BindOne(insts[0], data).value;
      var more := Bind(insts[1..], rest).value.0;
      assert ([op] + more)[1..] == more;
      ReplayLength(w, ReplayOp(w, out, op).value, insts[1..], rest, more);
    }
  }
}
