/**
  Variable-length integers, section 2 of RFC 3284: base 128, most significant
  group first, bit 7 set on every byte but the last.
  */
module Varint {
  import opened Base

  const MAX_VARINT_LEN := 10

  /** The groups of `n`, each with its continuation bit set; none for zero. */
  function Groups(n: nat): Bytes {
    if n == 0 then [] else Groups(n / 128) + [128 + n % 128]
  }

  /** The encoded form of `n`. */
  function Encode(n: nat): (s: Bytes)
    ensures |s| >= 1
  {
    Groups(n / 128) + [n % 128]
  }

  /** The number written by a string of groups, continuation bits ignored. */
  function Value(s: Bytes): nat {
    if s == [] then 0 else Value(s[..|s| - 1]) * 128 + s[|s| - 1] % 128
  }

  /** How many leading bytes carry the continuation bit. */
  function Span(s: Bytes): (k: nat)
    ensures k <= |s|
    ensures forall i :: 0 <= i < k ==> s[i] >= 128
    ensures k < |s| ==> s[k] < 128
  {
    if s == [] || s[0] < 128 then 0 else 1 + Span(s[1..])
  }

  datatype VarIntError = Underflow | Overflow

  datatype Reading = Got(value: nat, consumed: nat) | Failed(error: VarIntError)

  /**
    What a reader of integers below `bound` makes of `data`: the value of the
    first terminated group string if it fits.
    */
  function Read(data: Bytes, bound: nat): (r: Reading)
    ensures r.Got? ==> 0 < r.consumed <= |data| && r.value < bound
  {
    var k := Span(data);
    if k < |data| then
      var v := Value(data[..k + 1]);
      if v < bound then Got(v, k + 1) else Failed(Overflow)
    else if data != [] && Value(data[..|data| - 1]) * 128 >= bound then
      Failed(Overflow)
    else
      Failed(Underflow)
  }

  // ---------------------------------------------------------------------
  // Facts about the encoding
  // ---------------------------------------------------------------------

  lemma ValueSnoc(s: Bytes, b: Byte)
    ensures Value(s + [b]) == Value(s) * 128 + b % 128
  {
    assert (s + [b])[..|s|] == s;
  }

  lemma {:induction false} GroupsValue(n: nat)
    ensures Value(Groups(n)) == n
    ensures forall i :: 0 <= i < |Groups(n)| ==> Groups(n)[i] >= 128
  {
    if n != 0 {
      GroupsValue(n / 128);
      ValueSnoc(Groups(n / 128), 128 + n % 128);
    }
  }

  lemma EncodeValue(n: nat)
    ensures Value(Encode(n)) == n
    ensures forall i :: 0 <= i < |Encode(n)| - 1 ==> Encode(n)[i] >= 128
    ensures Encode(n)[|Encode(n)| - 1] < 128
  {
    hide Groups;
    GroupsValue(n / 128);
    var s := Encode(n);
    assert s[..|s| - 1] == Groups(n / 128);
  }

  lemma SpanIs(s: Bytes, k: nat)
    requires k < |s|
    requires forall i :: 0 <= i < k ==> s[i] >= 128
    requires s[k] < 128
    ensures Span(s) == k
  {
  }

  /** Reading an encoded value returns it and stops exactly at its end. */
  lemma ReadEncode(n: nat, suffix: Bytes, bound: nat)
    requires n < bound
    ensures Read(Encode(n) + suffix, bound) == Got(n, |Encode(n)|)
  {
    EncodeValue(n);
    var s := Encode(n);
    SpanIs(s + suffix, |s| - 1);
    assert (s + suffix)[..|s|] == s;
  }

  /** A successful reading does not look past what it consumes. */
  lemma ReadPrefix(data: Bytes, suffix: Bytes, bound: nat)
    requires Read(data, bound).Got?
    ensures Read(data + suffix, bound) == Read(data, bound)
  {
    var k := Span(data);
    SpanIs(data + suffix, k);
    assert (data + suffix)[..k + 1] == data[..k + 1];
  }

  lemma {:induction false} GroupsShortest(n: nat, s: Bytes)
    requires Value(s) == n
    ensures |Groups(n)| <= |s|
  {
    if n != 0 {
      GroupsShortest(n / 128, s[..|s| - 1]);
    }
  }

  /** No group string for `n` is shorter than the encoded form. */
  lemma EncodeShortest(n: nat, s: Bytes)
    requires s != [] && Value(s) == n
    ensures |Encode(n)| <= |s|
  {
    GroupsShortest(n / 128, s[..|s| - 1]);
  }

  lemma {:induction false} GroupsMonotone(m: nat, n: nat)
    requires m <= n
    ensures |Groups(m)| <= |Groups(n)|
  {
    if m != 0 {
      GroupsMonotone(m / 128, n / 128);
    }
  }

  lemma EncodeMonotone(m: nat, n: nat)
    requires m <= n
    ensures |Encode(m)| <= |Encode(n)|
  {
    GroupsMonotone(m / 128, n / 128);
  }

  // ---------------------------------------------------------------------
  // The encoded length computed from the bit length
  // ---------------------------------------------------------------------

  /** The position of the highest set bit, counted from one; zero for zero. */
  function BitLength(n: nat): nat {
    if n == 0 then 0 else 1 + BitLength(n / 2)
  }

  function DivCeil(a: nat, b: nat): nat
    requires b > 0
  {
    (a + b - 1) / b
  }

  function SizeofU64(n: nat): nat {
    var bits := BitLength(n);
    Min(DivCeil(if bits > 1 then bits else 1, 7), 10)
  }

  function SizeofU32(n: nat): nat {
    var bits := BitLength(n);
    Min(DivCeil(if bits > 1 then bits else 1, 7), 5)
  }

  lemma BitLengthShift(n: nat)
    ensures BitLength(n / 128) == if BitLength(n) > 7 then BitLength(n) - 7 else 0
  {
    var a, b, c := n / 2, n / 4, n / 8;
    var d, e, f := n / 16, n / 32, n / 64;
    assert a / 2 == b && b / 2 == c && c / 2 == d && d / 2 == e && e / 2 == f && f / 2 == n / 128;
    assert BitLength(n) == if n == 0 then 0 else 1 + BitLength(a);
    assert BitLength(a) == if a == 0 then 0 else 1 + BitLength(b);
    assert BitLength(b) == if b == 0 then 0 else 1 + BitLength(c);
    assert BitLength(c) == if c == 0 then 0 else 1 + BitLength(d);
    assert BitLength(d) == if d == 0 then 0 else 1 + BitLength(e);
    assert BitLength(e) == if e == 0 then 0 else 1 + BitLength(f);
    assert BitLength(f) == if f == 0 then 0 else 1 + BitLength(n / 128);
  }

  lemma {:induction false} GroupsLength(n: nat)
    ensures |Groups(n)| == DivCeil(BitLength(n), 7)
  {
    if n != 0 {
      GroupsLength(n / 128);
      BitLengthShift(n);
    }
  }

  lemma EncodeLength(n: nat)
    ensures |Encode(n)| == DivCeil(if BitLength(n) > 1 then BitLength(n) else 1, 7)
  {
    GroupsLength(n / 128);
    BitLengthShift(n);
  }

  function Pow2(k: nat): (p: nat)
    ensures p > 0
  {
    if k == 0 then 1 else 2 * Pow2(k - 1)
  }

  lemma {:induction false} BitLengthBound(n: nat, k: nat)
    requires n < Pow2(k)
    ensures BitLength(n) <= k
  {
    if n != 0 {
      BitLengthBound(n / 2, k - 1);
    }
  }

  lemma Widths()
    ensures Pow2(32) == U32_BOUND && Pow2(64) == U64_BOUND
  {
    assert Pow2(8) == 0x100;
    assert Pow2(16) == 0x1_0000;
    assert Pow2(24) == 0x100_0000;
    assert Pow2(32) == U32_BOUND;
    assert Pow2(40) == 0x100_0000_0000;
    assert Pow2(48) == 0x1_0000_0000_0000;
    assert Pow2(56) == 0x100_0000_0000_0000;
  }

  /** The size functions give exactly the encoded length. */
  lemma SizeofExact(n: nat)
    requires n < U64_BOUND
    ensures SizeofU64(n) == |Encode(n)| <= 10
    ensures n < U32_BOUND ==> SizeofU32(n) == |Encode(n)| <= 5
  {
    Widths();
    EncodeLength(n);
    BitLengthBound(n, 64);
    if n < U32_BOUND {
      BitLengthBound(n, 32);
    }
  }

  // ---------------------------------------------------------------------
  // The loops
  // ---------------------------------------------------------------------

  lemma TenGroups(n: nat)
    requires n < U64_BOUND
    ensures |Groups(n)| <= MAX_VARINT_LEN
  {
    Widths();
    GroupsLength(n);
    BitLengthBound(n, 64);
  }

  lemma GroupsShift(n: nat, tail: Bytes)
    requires n != 0
    ensures Groups(n / 128) + ([128 + n % 128] + tail) == Groups(n) + tail
  {
  }

  /** Clearing the last continuation bit of the groups gives the encoded form. */
  lemma ClearLast(n: nat, filled: Bytes)
    requires filled == if n == 0 then [128] else Groups(n)
    ensures filled[..|filled| - 1] + [filled[|filled| - 1] - 128] == Encode(n)
  {
  }

  /** Fills `buf` from its end with groups, all continuation bits set. */
  method FillGroups(n: nat, buf: array<Byte>) returns (i: nat)
    requires n < U64_BOUND
    requires buf.Length == MAX_VARINT_LEN
    modifies buf
    ensures i < MAX_VARINT_LEN
    ensures buf[i..] == if n == 0 then [128] else Groups(n)
  {
    var num: nat := n;
    i := MAX_VARINT_LEN;
    TenGroups(n);
    while true
      invariant i <= MAX_VARINT_LEN
      invariant num == 0 ==> n == 0 && i == MAX_VARINT_LEN
      invariant Groups(num) + buf[i..] == Groups(n)
      decreases i
    {
      ghost var tail := buf[i..];
      i := i - 1;
      buf[i] := 128 + num % 128;
      assert buf[i..] == [128 + num % 128] + tail;
      if num != 0 {
        GroupsShift(num, tail);
      }
      num := num / 128;
      if num == 0 {
        return;
      }
    }
  }

  /** The last `len` bytes of `buf` become the encoded form. */
  method EncodeU64(n: nat, buf: array<Byte>) returns (len: nat)
    requires n < U64_BOUND
    requires buf.Length == MAX_VARINT_LEN
    modifies buf
    ensures 1 <= len <= MAX_VARINT_LEN
    ensures buf[MAX_VARINT_LEN - len..] == Encode(n)
  {
    var i := FillGroups(n, buf);
    ClearLast(n, buf[i..]);
    buf[MAX_VARINT_LEN - 1] := buf[MAX_VARINT_LEN - 1] - 128;
    len := MAX_VARINT_LEN - i;
  }

  lemma {:induction false} ValueGrows(s: Bytes, k: nat)
    requires k <= |s|
    ensures Value(s[..k]) <= Value(s)
  {
    if k == |s| {
      assert s[..k] == s;
    } else {
      ValueGrows(s[..|s| - 1], k);
      assert s[..|s| - 1][..k] == s[..k];
    }
  }

  lemma ValueStep(data: Bytes, i: nat)
    requires i < |data|
    ensures Value(data[..i + 1]) == Value(data[..i]) * 128 + data[i] % 128
  {
    assert data[..i + 1][..i] == data[..i];
  }

  /** Once the accumulator would lose bits, no continuation can fit. */
  lemma ReadOverflows(data: Bytes, i: nat, bound: nat)
    requires i <= Span(data) && i < |data|
    requires Value(data[..i]) * 128 >= bound
    ensures Read(data, bound) == Failed(Overflow)
  {
    var k := Span(data);
    var m := if k < |data| then k else |data| - 1;
    assert Value(data[..i]) <= Value(data[..m]) by {
      assert data[..m][..i] == data[..i];
      ValueGrows(data[..m], i);
    }
    ValueStep(data, m);
  }

  /**
    The accumulating reader, with the guard that refuses a shift losing bits.
    `bound` is the width of the accumulator: 2^32 or 2^64.
    */
  method ReadInteger(data: Bytes, bound: nat) returns (r: Reading)
    requires bound == U32_BOUND || bound == U64_BOUND
    ensures r == Read(data, bound)
  {
    var val := 0;
    for i := 0 to |data|
      invariant i <= Span(data)
      invariant val == Value(data[..i]) < bound
      invariant i > 0 ==> Value(data[..i - 1]) * 128 < bound
    {
      if val >= bound / 128 {
        ReadOverflows(data, i, bound);
        return Failed(Overflow);
      }
      ValueStep(data, i);
      val := val * 128 + data[i] % 128;
      if data[i] < 128 {
        return Got(val, i + 1);
      }
    }
    return Failed(Underflow);
  }

  /** A terminated group string is accepted exactly when its value fits. */
  lemma ReadAcceptsIffFits(groups: Bytes, last: Byte, suffix: Bytes, bound: nat)
    requires forall i :: 0 <= i < |groups| ==> groups[i] >= 128
    requires last < 128
    ensures Read(groups + [last] + suffix, bound).Got? <==> Value(groups + [last]) < bound
    ensures Read(groups + [last] + suffix, bound).Got? ==>
              Read(groups + [last] + suffix, bound) == Got(Value(groups + [last]), |groups| + 1)
  {
    var data := groups + [last] + suffix;
    SpanIs(data, |groups|);
    assert data[..|groups| + 1] == groups + [last];
  }
}
