/**
  Reference reading of a window's three sections, in three passes: the INST and
  ADDR sections are parsed into instructions, the DATA section is dealt out to
  them, and the result is replayed.
  */
module Sections {
  import opened Base
  import opened Instructions
  import opened Addressing
  import opened CodeTable
  import Varint

  /** A cache with the default sizes. */
  type StdCache = c: Cache | |c.near| == 4 && |c.same| == 768 && c.next < 4 witness InitCache(4, 3)

  /** What is left of INST and ADDR, with the cache and the position they are read at. */
  datatype Cursor = Cursor(inst: Bytes, addr: Bytes, cache: StdCache, here: nat)

  predicate IsHalf(h: Info) {
    ADD <= h.itype < CPY + MODES
  }

  /** The half-instructions of an opcode. */
  function Halves(code: Byte): (q: seq<Info>)
    ensures forall i :: 0 <= i < |q| ==> IsHalf(q[i])
  {
    var e := DefaultEntry(code);
    EntryShape(code);
    (if e.type1 != NOOP then [Info(e.type1, e.size1)] else []) +
    (if e.type2 != NOOP then [Info(e.type2, e.size2)] else [])
  }

  /** A built-in size, or a varint from the front of INST. */
  function TakeSize(size: nat, inst: Bytes): (r: Option<(nat, Bytes)>)
    ensures r.Some? ==> |r.value.1| <= |inst|
  {
    if size != 0 then Some((size, inst))
    else
      match Varint.Read(inst, U32_BOUND)
      case Got(v, k) => Some((v, inst[k..]))
      case Failed(_) => None
  }

  /** One instruction whose size is known. */
  function ParseSized(itype: nat, len: nat, s: Cursor): (r: Option<(Inst, Cursor)>)
    requires ADD <= itype < CPY + MODES
    ensures r.Some? ==> r.value.1.inst == s.inst && r.value.1.here == s.here + len && r.value.0.len == len
  {
    if itype == RUN then Some((Run(len), s.(here := s.here + len)))
    else if itype == ADD then Some((Add(len), s.(here := s.here + len)))
    else
      var d :- Decode(s.cache, itype - CPY, s.addr, s.here);
      Some((Copy(len, d.addr, itype - CPY), Cursor(s.inst, s.addr[d.consumed..], d.cache, s.here + len)))
  }

  function ParseHalf(h: Info, s: Cursor): (r: Option<(Inst, Cursor)>)
    requires IsHalf(h)
    ensures r.Some? ==> |r.value.1.inst| <= |s.inst|
  {
    var (len, inst) :- TakeSize(h.size, s.inst);
    ParseSized(h.itype, len, s.(inst := inst))
  }

  /** Parses the queued half-instructions, then opcodes until INST is used up. */
  function Parse(q: seq<Info>, s: Cursor): (r: Option<(seq<Inst>, Cursor)>)
    requires forall i :: 0 <= i < |q| ==> IsHalf(q[i])
    ensures r.Some? ==> r.value.1.inst == []
    decreases |s.inst|, |q|
  {
    if q != [] then
      var (i, s') :- ParseHalf(q[0], s);
      var (rest, end) :- Parse(q[1..], s');
      Some(([i] + rest, end))
    else if s.inst == [] then Some(([], s))
    else Parse(Halves(s.inst[0]), s.(inst := s.inst[1..]))
  }

  /** Gives one instruction its literal bytes from the front of DATA. */
  function BindOne(i: Inst, data: Bytes): Option<(Op, Bytes)> {
    match i
    case Add(len) => if len <= |data| then Some((Literal(data[..len]), data[len..])) else None
    case Run(len) => if data != [] then Some((Repeat(len, data[0]), data[1..])) else None
    case Copy(len, addr, _) => Some((CopyFrom(len, addr), data))
  }

  function Bind(insts: seq<Inst>, data: Bytes): Option<(seq<Op>, Bytes)>
    decreases |insts|
  {
    if insts == [] then Some(([], data))
    else
      var (op, rest) :- BindOne(insts[0], data);
      var (ops, end) :- Bind(insts[1..], rest);
      Some(([op] + ops, end))
  }

  /** Parse, bind and replay what is left of a window. */
  function Execute(q: seq<Info>, s: Cursor, data: Bytes, w: Window, out: Bytes): Option<Bytes>
    requires forall i :: 0 <= i < |q| ==> IsHalf(q[i])
  {
    var (insts, _) :- Parse(q, s);
    var (ops, _) :- Bind(insts, data);
    Replay(w, out, ops)
  }

  function Start(inst: Bytes, addr: Bytes, w: Window): Cursor {
    Cursor(inst, addr, InitCache(4, 3), w.len)
  }

  lemma ParseCons(h: Info, q: seq<Info>, s: Cursor, i: Inst, s': Cursor, insts: seq<Inst>, end: Cursor)
    requires IsHalf(h) && forall i :: 0 <= i < |q| ==> IsHalf(q[i])
    requires ParseHalf(h, s) == Some((i, s'))
    requires Parse(q, s') == Some((insts, end))
    ensures Parse([h] + q, s) == Some(([i] + insts, end))
  {
    hide ParseHalf;
    assert ([h] + q)[1..] == q;
  }

  /** One instruction, or several, in front of what else is parsed. */
  function InFront(i: Inst, rest: Option<(seq<Inst>, Cursor)>): Option<(seq<Inst>, Cursor)> {
    if rest.None? then None else Some(([i] + rest.value.0, rest.value.1))
  }

  lemma ParseHead(h: Info, q: seq<Info>, s: Cursor)
    requires IsHalf(h) && forall i :: 0 <= i < |q| ==> IsHalf(q[i])
    ensures var p := ParseHalf(h, s);
            Parse([h] + q, s) == if p.None? then None else InFront(p.value.0, Parse(q, p.value.1))
  {
    hide ParseHalf;
    assert ([h] + q)[1..] == q;
  }

  function Prepend(done: seq<Inst>, rest: Option<(seq<Inst>, Cursor)>): Option<(seq<Inst>, Cursor)> {
    if rest.None? then None else Some((done + rest.value.0, rest.value.1))
  }

  lemma PrependInFront(done: seq<Inst>, i: Inst, rest: Option<(seq<Inst>, Cursor)>)
    ensures Prepend(done, InFront(i, rest)) == Prepend(done + [i], rest)
  {
    if rest.Some? {
      assert done + ([i] + rest.value.0) == (done + [i]) + rest.value.0;
    }
  }

  lemma PrependTwice(done: seq<Inst>, more: seq<Inst>, rest: Option<(seq<Inst>, Cursor)>)
    ensures Prepend(done, Prepend(more, rest)) == Prepend(done + more, rest)
  {
    if rest.Some? {
      assert done + (more + rest.value.0) == (done + more) + rest.value.0;
    }
  }

  lemma PrependNothing(rest: Option<(seq<Inst>, Cursor)>)
    ensures Prepend([], rest) == rest
  {
    if rest.Some? {
      assert [] + rest.value.0 == rest.value.0;
    }
  }

  lemma PrependFailed(done: seq<Inst>)
    ensures Prepend(done, None) == None
  {
  }

  lemma PrependLast(done: seq<Inst>, end: Cursor)
    ensures Prepend(done, Some(([], end))) == Some((done, end))
  {
    assert done + [] == done;
  }

  lemma ParseOpcode(s: Cursor)
    requires s.inst != []
    ensures Parse([], s) == Parse(Halves(s.inst[0]), s.(inst := s.inst[1..]))
  {
  }

  lemma ParseDone(s: Cursor)
    requires s.inst == []
    ensures Parse([], s) == Some(([], s))
  {
  }

  // ---------------------------------------------------------------------
  // Interleaving the three passes
  // ---------------------------------------------------------------------

  /** The three passes can be done one half-instruction at a time. */
  lemma ExecuteHalf(q: seq<Info>, s: Cursor, data: Bytes, w: Window, out: Bytes)
    requires forall i :: 0 <= i < |q| ==> IsHalf(q[i])
    requires q != []
    ensures Execute(q, s, data, w, out) ==
              match ParseHalf(q[0], s)
              case None => None
              case Some((i, s')) =>
                match BindOne(i, data)
                case None => None
                case Some((op, data')) =>
                  match ReplayOp(w, out, op)
                  case None => None
                  case Some(out') => Execute(q[1..], s', data', w, out')
  {
    var p := ParseHalf(q[0], s);
    if p.Some? && Parse(q[1..], p.value.1).Some? {
      var i, insts := p.value.0, Parse(q[1..], p.value.1).value.0;
      assert ([i] + insts)[1..] == insts;
      var b := BindOne(i, data);
      if b.Some? && Bind(insts, b.value.1).Some? {
        var ops := Bind(insts, b.value.1).value.0;
        assert ([b.value.0] + ops)[1..] == ops;
      }
    }
  }

  lemma ExecuteOpcode(s: Cursor, data: Bytes, w: Window, out: Bytes)
    requires s.inst != []
    ensures Execute([], s, data, w, out)
         == Execute(Halves(s.inst[0]), s.(inst := s.inst[1..]), data, w, out)
  {
  }

  // ---------------------------------------------------------------------
  // Appending to sections
  // ---------------------------------------------------------------------

  function Extend(s: Cursor, inst: Bytes, addr: Bytes): Cursor {
    s.(inst := s.inst + inst, addr := s.addr + addr)
  }

  lemma ParseSizedExtend(itype: nat, len: nat, s: Cursor, x: Bytes, y: Bytes)
    requires ADD <= itype < CPY + MODES
    requires ParseSized(itype, len, s).Some?
    ensures ParseSized(itype, len, Extend(s, x, y))
         == Some((ParseSized(itype, len, s).value.0, Extend(ParseSized(itype, len, s).value.1, x, y)))
  {
    hide Decode;
    if itype >= CPY {
      DecodePrefix(s.cache, itype - CPY, s.addr, y, s.here);
      var k := Decode(s.cache, itype - CPY, s.addr, s.here).value.consumed;
      assert (s.addr + y)[k..] == s.addr[k..] + y;
    }
  }

  lemma ParseHalfExtend(h: Info, s: Cursor, x: Bytes, y: Bytes)
    requires IsHalf(h) && ParseHalf(h, s).Some?
    ensures ParseHalf(h, Extend(s, x, y))
         == Some((ParseHalf(h, s).value.0, Extend(ParseHalf(h, s).value.1, x, y)))
  {
    var (len, inst) := TakeSize(h.size, s.inst).value;
    assert TakeSize(h.size, s.inst + x) == Some((len, inst + x)) by {
      if h.size == 0 {
        Varint.ReadPrefix(s.inst, x, U32_BOUND);
        var k := Varint.Read(s.inst, U32_BOUND).consumed;
        assert (s.inst + x)[k..] == s.inst[k..] + x;
      }
    }
    ParseSizedExtend(h.itype, len, s.(inst := inst), x, y);
  }

  /** Parsing what was appended continues where parsing what was there ended. */
  lemma {:induction false} ParseExtend(q: seq<Info>, s: Cursor, x: Bytes, y: Bytes)
    requires forall i :: 0 <= i < |q| ==> IsHalf(q[i])
    requires Parse(q, s).Some?
    ensures Parse(q, Extend(s, x, y)) ==
              match Parse([], Extend(Parse(q, s).value.1, x, y))
              case None => None
              case Some((more, end)) => Some((Parse(q, s).value.0 + more, end))
    decreases |s.inst|, |q|
  {
    hide ParseHalf, Halves;
    var (insts, end) := Parse(q, s).value;
    if q != [] {
      ParseHalfExtend(q[0], s, x, y);
      var (i, s') := ParseHalf(q[0], s).value;
      ParseExtend(q[1..], s', x, y);
      var tail := Parse([], Extend(end, x, y));
      if tail.Some? {
        assert insts + tail.value.0 == [i] + (insts[1..] + tail.value.0);
      }
    } else if s.inst == [] {
      var tail := Parse([], Extend(s, x, y));
      if tail.Some? {
        assert [] + tail.value.0 == tail.value.0;
      }
    } else {
      var s' := s.(inst := s.inst[1..]);
      ParseExtend(Halves(s.inst[0]), s', x, y);
      assert (s.inst + x)[1..] == s.inst[1..] + x;
      assert Extend(s, x, y).inst[0] == s.inst[0];
    }
  }

  lemma BindOneExtend(i: Inst, data: Bytes, z: Bytes)
    requires BindOne(i, data).Some?
    ensures BindOne(i, data + z) == Some((BindOne(i, data).value.0, BindOne(i, data).value.1 + z))
  {
    if i.Add? {
      assert (data + z)[..i.len] == data[..i.len];
      assert (data + z)[i.len..] == data[i.len..] + z;
    } else if i.Run? {
      assert (data + z)[1..] == data[1..] + z;
    }
  }

  lemma {:induction false} BindExtend(insts: seq<Inst>, more: seq<Inst>, data: Bytes, z: Bytes)
    requires Bind(insts, data) .Some?
    ensures Bind(insts + more, data + z) ==
              match Bind(more, Bind(insts, data).value.1 + z)
              case None => None
              case Some((ops, rest)) => Some((Bind(insts, data).value.0 + ops, rest))
    decreases |insts|
  {
    hide BindOne;
    var tail := Bind(more, Bind(insts, data).value.1 + z);
    if insts == [] {
      assert insts + more == more;
      if tail.Some? {
        assert [] + tail.value.0 == tail.value.0;
      }
    } else {
      var (op, rest) := BindOne(insts[0], data).value;
      assert (insts + more)[1..] == insts[1..] + more;
      BindOneExtend(insts[0], data, z);
      BindExtend(insts[1..], more, rest, z);
      if tail.Some? {
        var ops := Bind(insts[1..], rest).value.0;
        assert [op] + (ops + tail.value.0) == ([op] + ops) + tail.value.0;
      }
    }
  }

  /** The position advances by the lengths of the instructions. */
  lemma {:induction false} ParseHere(q: seq<Info>, s: Cursor)
    requires forall i :: 0 <= i < |q| ==> IsHalf(q[i])
    requires Parse(q, s).Some?
    ensures Parse(q, s).value.1.here == s.here + TotalLen(Parse(q, s).value.0)
    decreases |s.inst|, |q|
  {
    if q != [] {
      var (i, s') := ParseHalf(q[0], s).value;
      ParseHere(q[1..], s');
      assert ([i] + Parse(q[1..], s').value.0)[1..] == Parse(q[1..], s').value.0;
    } else if s.inst != [] {
      ParseHere(Halves(s.inst[0]), s.(inst := s.inst[1..]));
    }
  }

  // ---------------------------------------------------------------------
  // Opcode by opcode
  // ---------------------------------------------------------------------

  /** The kinds and lengths some half-instructions stand for, and what is left of INST. */
  function TakeSizes(q: seq<Info>, inst: Bytes): (r: Option<(seq<Info>, Bytes)>)
    ensures r.Some? ==> |r.value.1| <= |inst| && |r.value.0| == |q|
    decreases |q|
  {
    if q == [] then Some(([], inst))
    else
      var (len, rest) :- TakeSize(q[0].size, inst);
      var (more, end) :- TakeSizes(q[1..], rest);
      Some(([Info(q[0].itype, len)] + more, end))
  }

  /** What each opcode of INST stands for: one instruction or two. */
  function Opcodes(inst: Bytes): Option<seq<seq<Info>>>
    decreases |inst|
  {
    if inst == [] then Some([])
    else
      var (group, rest) :- TakeSizes(Halves(inst[0]), inst[1..]);
      var more :- Opcodes(rest);
      Some([group] + more)
  }

  lemma TakeSizeExtend(size: nat, inst: Bytes, x: Bytes)
    requires TakeSize(size, inst).Some?
    ensures TakeSize(size, inst + x) == Some((TakeSize(size, inst).value.0, TakeSize(size, inst).value.1 + x))
  {
    hide Varint.Read;
    if size == 0 {
      Varint.ReadPrefix(inst, x, U32_BOUND);
      var k := Varint.Read(inst, U32_BOUND).consumed;
      assert (inst + x)[k..] == inst[k..] + x;
    }
  }

  lemma {:induction false} TakeSizesExtend(q: seq<Info>, inst: Bytes, x: Bytes)
    requires TakeSizes(q, inst).Some?
    ensures TakeSizes(q, inst + x) == Some((TakeSizes(q, inst).value.0, TakeSizes(q, inst).value.1 + x))
    decreases |q|
  {
    hide TakeSize;
    if q != [] {
      TakeSizeExtend(q[0].size, inst, x);
      TakeSizesExtend(q[1..], TakeSize(q[0].size, inst).value.1, x);
    }
  }

  /** Opcodes put behind opcodes do not change them. */
  lemma {:induction false} OpcodesAppend(inst: Bytes, x: Bytes)
    requires Opcodes(inst).Some? && Opcodes(x).Some?
    ensures Opcodes(inst + x) == Some(Opcodes(inst).value + Opcodes(x).value)
    decreases |inst|
  {
    hide TakeSizes, Halves;
    if inst == [] {
      assert inst + x == x && [] + Opcodes(x).value == Opcodes(x).value;
    } else {
      var q := Halves(inst[0]);
      var (group, rest) := TakeSizes(q, inst[1..]).value;
      assert (inst + x)[1..] == inst[1..] + x;
      TakeSizesExtend(q, inst[1..], x);
      OpcodesAppend(rest, x);
      assert [group] + (Opcodes(rest).value + Opcodes(x).value) == ([group] + Opcodes(rest).value) + Opcodes(x).value;
    }
  }
}
