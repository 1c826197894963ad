/**
  Instructions and what they mean: the superstring semantics of section 3 of
  RFC 3284, the decoder's refinement of it, and when an instruction list
  explains a target.
  */
module Instructions {
  import opened Base

  /** An instruction as the match engine and the optimiser handle it: lengths only. */
  datatype Inst =
    | Add(len: nat)
    | Copy(len: nat, addr: nat, mode: nat)
    | Run(len: nat)

  /** An instruction together with its literal bytes. */
  datatype Op =
    | Literal(data: Bytes)
    | CopyFrom(len: nat, addr: nat)
    | Repeat(len: nat, byte: Byte)

  function OpLen(op: Op): nat {
    match op
    case Literal(data) => |data|
    case CopyFrom(len, _) => len
    case Repeat(len, _) => len
  }

  /** The part of the source a window may copy from. */
  datatype Window = Window(source: Bytes, offset: nat, len: nat)

  // ---------------------------------------------------------------------
  // Superstring semantics
  // ---------------------------------------------------------------------

  /** Appends `n` bytes to `u`, read one by one from `addr` on; reads may see bytes just written. */
  function CopyBytes(u: Bytes, addr: nat, n: nat): (r: Bytes)
    requires addr < |u|
    ensures |r| == |u| + n && u <= r
    decreases n
  {
    if n == 0 then u else CopyBytes(u + [u[addr]], addr + 1, n - 1)
  }

  /** Executes operations over the superstring of source segment and target. */
  function Super(u: Bytes, ops: seq<Op>): Option<Bytes>
    decreases |ops|
  {
    if ops == [] then Some(u)
    else
      match ops[0]
      case Literal(data) => Super(u + data, ops[1..])
      case Repeat(len, byte) => Super(u + Fill(byte, len), ops[1..])
      case CopyFrom(len, addr) => if addr < |u| then Super(CopyBytes(u, addr, len), ops[1..]) else None
  }

  // ---------------------------------------------------------------------
  // Decoder semantics
  // ---------------------------------------------------------------------

  /** A COPY must not start in the source segment and end in the target. */
  predicate Crosses(segment: nat, addr: nat, len: nat) {
    addr < segment < addr + len
  }

  /** One operation on the output of the current window; none when the decoder refuses it. */
  function ReplayOp(w: Window, out: Bytes, op: Op): (r: Option<Bytes>)
    ensures r.Some? ==> out <= r.value && |r.value| == |out| + OpLen(op)
  {
    match op
    case Literal(data) => Some(out + data)
    case Repeat(len, byte) => Some(out + Fill(byte, len))
    case CopyFrom(len, addr) =>
      if addr >= w.len + |out| || Crosses(w.len, addr, len) then None
      else if addr >= w.len then Some(CopyBytes(out, addr - w.len, len))
      else if len == 0 then Some(out)
      else if w.offset + addr + len > |w.source| then None
      else Some(out + w.source[w.offset + addr..w.offset + addr + len])
  }

  function Replay(w: Window, out: Bytes, ops: seq<Op>): (r: Option<Bytes>)
    ensures r.Some? ==> out <= r.value
    decreases |ops|
  {
    if ops == [] then Some(out)
    else
      var next :- ReplayOp(w, out, ops[0]);
      Replay(w, next, ops[1..])
  }

  predicate NoCrossing(segment: nat, ops: seq<Op>) {
    forall op :: op in ops && op.CopyFrom? ==> !Crosses(segment, op.addr, op.len)
  }

  lemma {:induction false} CopyBytesShift(s: Bytes, out: Bytes, addr: nat, n: nat)
    requires addr < |out|
    ensures CopyBytes(s + out, |s| + addr, n) == s + CopyBytes(out, addr, n)
    decreases n
  {
    if n != 0 {
      CopyBytesShift(s, out + [out[addr]], addr + 1, n - 1);
      assert (s + out) + [(s + out)[|s| + addr]] == s + (out + [out[addr]]);
    }
  }

  /** Reading bytes that are all there already is a bulk copy. */
  lemma {:induction false} CopyBytesBulk(u: Bytes, addr: nat, n: nat)
    requires addr < |u| && addr + n <= |u|
    ensures CopyBytes(u, addr, n) == u + u[addr..addr + n]
    decreases n
  {
    if n != 0 {
      var v := u + [u[addr]];
      CopyBytesTail(v, u, addr + 1, n - 1);
      assert u + u[addr..addr + n] == v + u[addr + 1..addr + n];
    }
  }

  /** Bulk copying from a prefix `u` of the buffer `v`. */
  lemma {:induction false} CopyBytesTail(v: Bytes, u: Bytes, addr: nat, n: nat)
    requires u <= v && addr + n <= |u| && addr < |v|
    ensures CopyBytes(v, addr, n) == v + u[addr..addr + n]
    decreases n
  {
    if n != 0 {
      var v' := v + [v[addr]];
      CopyBytesTail(v', u, addr + 1, n - 1);
      assert v' + u[addr + 1..addr + n] == v + u[addr..addr + n];
    }
  }

  /** A stretch of the segment read through the superstring is a stretch of the source. */
  lemma SegmentSlice(w: Window, s: Bytes, t: Bytes, addr: nat, len: nat)
    requires w.offset + w.len <= |w.source| && s == w.source[w.offset..w.offset + w.len]
    requires addr + len <= w.len
    ensures (s + t)[addr..addr + len] == w.source[w.offset + addr..w.offset + addr + len]
  {
    assert (s + t)[addr..addr + len] == s[addr..addr + len];
    assert s[addr..addr + len] == w.source[w.offset + addr..w.offset + addr + len];
  }

  lemma SourceStepIsSuper(w: Window, s: Bytes, out: Bytes, addr: nat, len: nat)
    requires w.offset + w.len <= |w.source| && s == w.source[w.offset..w.offset + w.len]
    requires addr < w.len && addr + len <= w.len
    ensures CopyBytes(s + out, addr, len) == s + (out + w.source[w.offset + addr..w.offset + addr + len])
  {
    CopyBytesBulk(s + out, addr, len);
    SegmentSlice(w, s, out, addr, len);
  }

  lemma StepIsSuper(w: Window, s: Bytes, out: Bytes, op: Op)
    requires w.offset + w.len <= |w.source| && s == w.source[w.offset..w.offset + w.len]
    requires op.CopyFrom? && op.addr < w.len + |out| && !Crosses(w.len, op.addr, op.len)
    ensures ReplayOp(w, out, op).Some?
    ensures CopyBytes(s + out, op.addr, op.len) == s + ReplayOp(w, out, op).value
  {
    if op.addr >= w.len {
      CopyBytesShift(s, out, op.addr - w.len, op.len);
    } else if op.len > 0 {
      SourceStepIsSuper(w, s, out, op.addr, op.len);
    }
  }

  /**
    The decoder refines the superstring semantics: it accepts exactly the lists
    that are defined there and never cross the boundary, with the same result.
    */
  lemma {:induction false} ReplayIsSuper(w: Window, out: Bytes, ops: seq<Op>)
    requires w.offset + w.len <= |w.source|
    ensures var s := w.source[w.offset..w.offset + w.len];
            && (Replay(w, out, ops).Some? <==> Super(s + out, ops).Some? && NoCrossing(w.len, ops))
            && (Replay(w, out, ops).Some? ==> Super(s + out, ops) == Some(s + Replay(w, out, ops).value))
    decreases |ops|
  {
    var s := w.source[w.offset..w.offset + w.len];
    if ops != [] {
      var op := ops[0];
      assert NoCrossing(w.len, ops) <==>
        (op.CopyFrom? ==> !Crosses(w.len, op.addr, op.len)) && NoCrossing(w.len, ops[1..]);
      match op
      case Literal(data) =>
        ReplayIsSuper(w, out + data, ops[1..]);
        assert s + out + data == s + (out + data);
      case Repeat(len, byte) =>
        ReplayIsSuper(w, out + Fill(byte, len), ops[1..]);
        assert s + out + Fill(byte, len) == s + (out + Fill(byte, len));
      case CopyFrom(len, addr) =>
        if addr < w.len + |out| && !Crosses(w.len, addr, len) {
          StepIsSuper(w, s, out, op);
          ReplayIsSuper(w, ReplayOp(w, out, op).value, ops[1..]);
        }
    }
  }

  lemma {:induction false} ReplayAppend(w: Window, out: Bytes, a: seq<Op>, b: seq<Op>)
    ensures Replay(w, out, a + b) == match Replay(w, out, a)
                                     case None => None
                                     case Some(mid) => Replay(w, mid, b)
    decreases |a|
  {
    if a == [] {
      assert a + b == b;
    } else {
      assert (a + b)[1..] == a[1..] + b;
      if ReplayOp(w, out, a[0]).Some? {
        ReplayAppend(w, ReplayOp(w, out, a[0]).value, a[1..], b);
      }
    }
  }

  // ---------------------------------------------------------------------
  // Explaining a target
  // ---------------------------------------------------------------------

  /** The bytes of `target` under the instruction are what the instruction would produce there. */
  ghost predicate Fits(segment: Bytes, target: Bytes, pos: nat, i: Inst) {
    && pos + i.len <= |target|
    && match i
       case Add(_) => true
       case Run(len) => forall k :: pos <= k < pos + len ==> target[k] == target[pos]
       case Copy(len, addr, _) =>
         && addr < |segment| + pos
         && target[pos..pos + len] == (segment + target)[addr..addr + len]
  }

  /** The instructions partition the target from `pos` on, and each fits where it lands. */
  ghost predicate Explains(segment: Bytes, target: Bytes, insts: seq<Inst>, pos: nat)
    decreases |insts|
  {
    if insts == [] then pos == |target|
    else Fits(segment, target, pos, insts[0]) && Explains(segment, target, insts[1..], pos + insts[0].len)
  }

  /** Nothing the decoder's boundary check would refuse. */
  ghost predicate Accepted(segment: nat, insts: seq<Inst>) {
    forall i :: 0 <= i < |insts| && insts[i].Copy? ==> !Crosses(segment, insts[i].addr, insts[i].len)
  }

  ghost predicate Positive(insts: seq<Inst>) {
    forall i :: 0 <= i < |insts| ==> insts[i].len > 0
  }

  function TotalLen(insts: seq<Inst>): nat {
    if insts == [] then 0 else insts[0].len + TotalLen(insts[1..])
  }

  /** The operation an instruction becomes when its literals are taken from `target` at `pos`. */
  function Realise(i: Inst, target: Bytes, pos: nat): (op: Op)
    requires pos + i.len <= |target| && i.len > 0
    ensures OpLen(op) == i.len
  {
    match i
    case Add(len) => Literal(target[pos..pos + len])
    case Run(len) => Repeat(len, target[pos])
    case Copy(len, addr, _) => CopyFrom(len, addr)
  }

  function OpsOf(insts: seq<Inst>, target: Bytes, pos: nat): (ops: seq<Op>)
    requires forall i :: 0 <= i < |insts| ==> insts[i].len > 0
    requires pos + TotalLen(insts) <= |target|
    ensures |ops| == |insts|
    decreases |insts|
  {
    if insts == [] then [] else [Realise(insts[0], target, pos)] + OpsOf(insts[1..], target, pos + insts[0].len)
  }

  lemma {:induction false} ExplainsLen(segment: Bytes, target: Bytes, insts: seq<Inst>, pos: nat)
    requires Explains(segment, target, insts, pos)
    ensures pos + TotalLen(insts) == |target|
    decreases |insts|
  {
    if insts != [] {
      ExplainsLen(segment, target, insts[1..], pos + insts[0].len);
    }
  }

  lemma SlicesAgree(s: Bytes, i: nat, j: nat, n: nat)
    requires 0 < n && i + n <= |s| && j + n <= |s|
    ensures s[i..i + n] == s[j..j + n] <==> s[i] == s[j] && s[i + 1..i + n] == s[j + 1..j + n]
  {
    assert s[i..i + n] == [s[i]] + s[i + 1..i + n];
    assert s[j..j + n] == [s[j]] + s[j + 1..j + n];
    if s[i..i + n] == s[j..j + n] {
      assert s[i..i + n][0] == s[j..j + n][0];
      assert s[i..i + n][1..] == s[i + 1..i + n] && s[j..j + n][1..] == s[j + 1..j + n];
    }
  }

  /** Copying within a prefix of the target gives the longer prefix exactly if the bytes repeat. */
  lemma {:induction false} CopyBytesTarget(target: Bytes, pos: nat, a: nat, n: nat)
    requires a < pos && pos + n <= |target|
    ensures CopyBytes(target[..pos], a, n) == target[..pos + n]
       <==> target[pos..pos + n] == target[a..a + n]
    decreases n
  {
    if n != 0 {
      SlicesAgree(target, pos, a, n);
      var u := target[..pos];
      if target[pos] == target[a] {
        assert u + [u[a]] == target[..pos + 1];
        CopyBytesTarget(target, pos + 1, a + 1, n - 1);
      } else {
        assert CopyBytes(u, a, n)[pos] == (u + [u[a]])[pos] == target[a];
        assert target[..pos + n][pos] == target[pos];
      }
    }
  }

  lemma RunTarget(target: Bytes, pos: nat, len: nat)
    requires pos < |target| && pos + len <= |target|
    ensures target[..pos] + Fill(target[pos], len) == target[..pos + len]
       <==> forall k :: pos <= k < pos + len ==> target[k] == target[pos]
  {
    var r := target[..pos] + Fill(target[pos], len);
    assert forall k :: pos <= k < pos + len ==> r[k] == target[pos];
    if r == target[..pos + len] {
      assert forall k :: pos <= k < pos + len ==> target[k] == r[k];
    }
  }

  lemma SourceCopyTarget(w: Window, s: Bytes, target: Bytes, pos: nat, addr: nat, len: nat)
    requires w.offset + w.len <= |w.source| && s == w.source[w.offset..w.offset + w.len]
    requires addr + len <= w.len && pos + len <= |target|
    ensures target[..pos] + w.source[w.offset + addr..w.offset + addr + len] == target[..pos + len]
       <==> target[pos..pos + len] == (s + target)[addr..addr + len]
  {
    var c := w.source[w.offset + addr..w.offset + addr + len];
    SegmentSlice(w, s, target, addr, len);
    assert target[..pos + len] == target[..pos] + target[pos..pos + len];
    assert (target[..pos] + c)[pos..] == c;
    assert target[..pos + len][pos..] == target[pos..pos + len];
  }

  lemma SelfCopyTarget(s: Bytes, target: Bytes, pos: nat, addr: nat, len: nat)
    requires |s| <= addr < |s| + pos && pos + len <= |target|
    ensures CopyBytes(target[..pos], addr - |s|, len) == target[..pos + len]
       <==> target[pos..pos + len] == (s + target)[addr..addr + len]
  {
    CopyBytesTarget(target, pos, addr - |s|, len);
    assert (s + target)[addr..addr + len] == target[addr - |s|..addr - |s| + len];
  }

  lemma CopyIffReplays(w: Window, s: Bytes, target: Bytes, pos: nat, len: nat, addr: nat)
    requires w.offset + w.len <= |w.source| && s == w.source[w.offset..w.offset + w.len]
    requires len > 0 && pos + len <= |target|
    ensures ReplayOp(w, target[..pos], CopyFrom(len, addr)) == Some(target[..pos + len])
       <==> && !Crosses(w.len, addr, len)
            && addr < |s| + pos
            && target[pos..pos + len] == (s + target)[addr..addr + len]
  {
    if w.len <= addr < w.len + pos {
      SelfCopyTarget(s, target, pos, addr, len);
    } else if addr + len <= w.len {
      SourceCopyTarget(w, s, target, pos, addr, len);
    }
  }

  /** One instruction fits exactly when replaying it extends the prefix of the target. */
  lemma FitsIffReplays(w: Window, s: Bytes, target: Bytes, pos: nat, i: Inst)
    requires w.offset + w.len <= |w.source| && s == w.source[w.offset..w.offset + w.len]
    requires i.len > 0 && pos + i.len <= |target|
    ensures ReplayOp(w, target[..pos], Realise(i, target, pos)) == Some(target[..pos + i.len])
       <==> Fits(s, target, pos, i) && (i.Copy? ==> !Crosses(w.len, i.addr, i.len))
  {
    match i
    case Add(len) =>
      assert target[..pos] + target[pos..pos + len] == target[..pos + len];
    case Run(len) =>
      RunTarget(target, pos, len);
    case Copy(len, addr, _) =>
      CopyIffReplays(w, s, target, pos, len, addr);
  }

  /**
    A list of instructions explains a target and passes the boundary check
    exactly when replaying it, with literals taken from that target, rebuilds
    the target.
    */
  lemma {:induction false} ExplainsIffReplays(w: Window, target: Bytes, insts: seq<Inst>, pos: nat)
    requires w.offset + w.len <= |w.source|
    requires Positive(insts) && pos + TotalLen(insts) == |target|
    ensures Replay(w, target[..pos], OpsOf(insts, target, pos)) == Some(target)
       <==> Explains(w.source[w.offset..w.offset + w.len], target, insts, pos) && Accepted(w.len, insts)
    decreases |insts|
  {
    hide ReplayOp, Fits, Realise;
    var s := w.source[w.offset..w.offset + w.len];
    if insts == [] {
      assert target[..pos] == target;
    } else {
      var i, rest := insts[0], insts[1..];
      var op := Realise(i, target, pos);
      var next := pos + i.len;
      assert OpsOf(insts, target, pos)[1..] == OpsOf(rest, target, next);
      assert Accepted(w.len, insts) <==>
        (i.Copy? ==> !Crosses(w.len, i.addr, i.len)) && Accepted(w.len, rest);
      FitsIffReplays(w, s, target, pos, i);
      ExplainsIffReplays(w, target, rest, next);
      var r := ReplayOp(w, target[..pos], op);
      if r.Some? && Replay(w, r.value, OpsOf(rest, target, next)) == Some(target) {
        assert r.value <= target;
        assert r.value == target[..next];
      }
    }
  }
}
