/** Comparison kernels, run detection and the rolling source checksum. */
module Rolling {
  import opened Base

  // ---------------------------------------------------------------------
  // Common prefixes, common suffixes and runs
  // ---------------------------------------------------------------------

  /** The length of the longest common prefix. */
  function CommonPrefix(a: Bytes, b: Bytes): (k: nat)
    ensures k <= |a| && k <= |b| && a[..k] == b[..k]
    ensures k < |a| && k < |b| ==> a[k] != b[k]
  {
    if a == [] || b == [] || a[0] != b[0] then 0 else 1 + CommonPrefix(a[1..], b[1..])
  }

  lemma {:induction false} CommonPrefixIs(a: Bytes, b: Bytes, k: nat)
    requires k <= |a| && k <= |b| && a[..k] == b[..k]
    requires k < |a| && k < |b| ==> a[k] != b[k]
    ensures CommonPrefix(a, b) == k
    decreases k
  {
    if k > 0 {
      assert a[0] == a[..k][0] == b[..k][0] == b[0];
      assert a[1..][..k - 1] == a[..k][1..] == b[..k][1..] == b[1..][..k - 1];
      CommonPrefixIs(a[1..], b[1..], k - 1);
    }
  }

  /** How many bytes agree, looking at no more than `limit`. */
  method ForwardMatch(s1: Bytes, s2: Bytes, limit: nat) returns (i: nat)
    ensures i == Min(limit, CommonPrefix(s1, s2))
  {
    hide CommonPrefix;
    var n := Min(limit, Min(|s1|, |s2|));
    i := 0;
    while i < n && s1[i] == s2[i]
      invariant i <= n && s1[..i] == s2[..i]
    {
      i := i + 1;
    }
    PrefixAtLeast(s1, s2, i);
    if i < limit {
      CommonPrefixIs(s1, s2, i);
    }
  }

  lemma PrefixAtLeast(a: Bytes, b: Bytes, k: nat)
    requires k <= |a| && k <= |b| && a[..k] == b[..k]
    ensures k <= CommonPrefix(a, b)
  {
    hide CommonPrefix;
    assert forall n :: 0 <= n < k ==> a[n] == a[..k][n] && b[n] == b[..k][n];
  }

  /** From `i` on the two strings are the same. */
  ghost predicate AgreeOn(a: Bytes, b: Bytes, i: nat) {
    |a| == |b| && forall x :: i <= x < |a| ==> a[x] == b[x]
  }

  /** The length of the longest common suffix of the first `i` bytes. */
  function SuffixUpTo(a: Bytes, b: Bytes, i: nat): (k: nat)
    requires i <= |a| == |b|
    ensures k <= i && forall x :: i - k <= x < i ==> a[x] == b[x]
    ensures k < i ==> a[i - k - 1] != b[i - k - 1]
    decreases i
  {
    if i == 0 || a[i - 1] != b[i - 1] then 0 else 1 + SuffixUpTo(a, b, i - 1)
  }

  /** The length of the longest common suffix. */
  function CommonSuffix(a: Bytes, b: Bytes): (k: nat)
    requires |a| == |b|
    ensures k <= |a| && AgreeOn(a, b, |a| - k)
    ensures k < |a| ==> a[|a| - k - 1] != b[|a| - k - 1]
  {
    SuffixUpTo(a, b, |a|)
  }

  /** How many bytes agree at the end of two strings of the same length. */
  method SuffixLength(s1: Bytes, s2: Bytes) returns (k: nat)
    requires |s1| == |s2|
    ensures k == CommonSuffix(s1, s2)
  {
    var i := |s1|;
    while i > 0 && s1[i - 1] == s2[i - 1]
      invariant 0 <= i <= |s1|
      invariant |s1| - i + SuffixUpTo(s1, s2, i) == SuffixUpTo(s1, s2, |s1|)
    {
      i := i - 1;
    }
    k := |s1| - i;
  }

  /** The same for two strings cut off at `limit` or the shorter length. */
  method BackwardMatch(s1: Bytes, s2: Bytes, limit: nat) returns (k: nat)
    ensures var n := Min(limit, Min(|s1|, |s2|)); k == CommonSuffix(s1[..n], s2[..n])
    ensures limit == |s1| == |s2| ==> k == CommonSuffix(s1, s2)
  {
    hide CommonSuffix;
    var n := Min(limit, Min(|s1|, |s2|));
    k := SuffixLength(s1[..n], s2[..n]);
    TakeAll(s1);
    TakeAll(s2);
  }

  lemma TakeAll(s: Bytes)
    ensures s[..|s|] == s
  {
  }

  /** How many leading bytes equal `byte`. */
  function RunLength(data: Bytes, byte: Byte): (k: nat)
    ensures k <= |data|
    ensures forall i :: 0 <= i < k ==> data[i] == byte
    ensures k < |data| ==> data[k] != byte
  {
    if data == [] || data[0] != byte then 0 else 1 + RunLength(data[1..], byte)
  }

  lemma RunLengthIs(data: Bytes, byte: Byte, k: nat)
    requires k <= |data|
    requires forall i :: 0 <= i < k ==> data[i] == byte
    requires k < |data| ==> data[k] != byte
    ensures RunLength(data, byte) == k
  {
  }

  method FindRunLength(data: Bytes, byte: Byte, limit: nat) returns (i: nat)
    ensures i == Min(limit, RunLength(data, byte))
  {
    hide RunLength;
    var n := Min(limit, |data|);
    i := 0;
    while i < n && data[i] == byte
      invariant i <= n && forall k :: 0 <= k < i ==> data[k] == byte
    {
      i := i + 1;
    }
    if i < limit {
      RunLengthIs(data, byte, i);
    }
  }

  /** The length of the run that ends a string. */
  function TrailingRun(s: Bytes): (k: nat)
    ensures k <= |s| && (s != [] ==> k > 0)
    ensures forall i :: |s| - k <= i < |s| ==> s[i] == s[|s| - 1]
    ensures 0 < k < |s| ==> s[|s| - k - 1] != s[|s| - 1]
  {
    if |s| <= 1 then |s|
    else if s[|s| - 2] == s[|s| - 1] then 1 + TrailingRun(s[..|s| - 1])
    else 1
  }

  /** One more byte lengthens the run or starts a new one. */
  lemma TrailingRunStep(s: Bytes, b: Byte)
    ensures TrailingRun(s + [b]) == if s != [] && s[|s| - 1] == b then TrailingRun(s) + 1 else 1
  {
    assert (s + [b])[..|s|] == s;
  }

  /** The run at the end of the first `look` bytes. */
  method CompRun(seg: Bytes, look: nat) returns (runL: nat, runC: Byte)
    requires look <= |seg|
    ensures runL == TrailingRun(seg[..look]) && runC == if look == 0 then 0 else seg[look - 1]
  {
    hide TrailingRun;
    runL, runC := 0, 0;
    assert TrailingRun(seg[..0]) == 0;
    for i := 0 to look
      invariant runL == TrailingRun(seg[..i])
      invariant runC == if i == 0 then 0 else seg[i - 1]
    {
      assert seg[..i + 1] == seg[..i] + [seg[i]];
      TrailingRunStep(seg[..i], seg[i]);
      var byte := seg[i];
      if byte == runC {
        runL := runL + 1;
      } else {
        runC := byte;
        runL := 1;
      }
    }
  }

  // ---------------------------------------------------------------------
  // The rolling checksum
  // ---------------------------------------------------------------------

  /** The sum of the permuted bytes. */
  function Low(s: Bytes, single: Byte -> nat): nat {
    if s == [] then 0 else Low(s[..|s| - 1], single) + single(s[|s| - 1])
  }

  /** The sum of all prefix sums. */
  function High(s: Bytes, single: Byte -> nat): nat {
    if s == [] then 0 else High(s[..|s| - 1], single) + Low(s, single)
  }

  /** The checksum of a whole window: both sums, cut to 16 bits. */
  function Checksum(s: Bytes, single: Byte -> nat): nat {
    High(s, single) % 0x1_0000 * 0x1_0000 + Low(s, single) % 0x1_0000
  }

  lemma AddMod(a: nat, b: nat)
    ensures (a % U32_BOUND + b) % U32_BOUND == (a + b) % U32_BOUND
    ensures (a % U32_BOUND + b % U32_BOUND) % U32_BOUND == (a + b) % U32_BOUND
  {
  }

  lemma ModMod(a: nat)
    ensures a % U32_BOUND % 0x1_0000 == a % 0x1_0000
  {
  }

  /** The checksum keeps the weighted sum in its upper and the plain sum in its lower half. */
  lemma ChecksumHalves(s: Bytes, single: Byte -> nat)
    ensures Checksum(s, single) / 0x1_0000 == High(s, single) % 0x1_0000
    ensures Checksum(s, single) % 0x1_0000 == Low(s, single) % 0x1_0000
  {
  }

  method ComputeChecksum(base: Bytes, look: nat, single: Byte -> nat) returns (c: nat)
    requires look <= |base|
    ensures c == Checksum(base[..look], single)
  {
    var low, high := 0, 0;
    for i := 0 to look
      invariant low == Low(base[..i], single) % U32_BOUND
      invariant high == High(base[..i], single) % U32_BOUND
    {
      assert base[..i + 1][..i] == base[..i];
      AddMod(Low(base[..i], single), single(base[i]));
      low := (low + single(base[i])) % U32_BOUND;
      AddMod(High(base[..i], single), Low(base[..i + 1], single));
      high := (high + low) % U32_BOUND;
    }
    ModMod(Low(base[..look], single));
    ModMod(High(base[..look], single));
    c := high % 0x1_0000 * 0x1_0000 + low % 0x1_0000;
  }

  /** `a - b` in 32-bit wrap-around arithmetic. */
  function WrappingSub(a: nat, b: nat): nat {
    (a - b) % U32_BOUND
  }

  /** Slides the window by one byte: `oldByte` leaves, `newByte` enters. */
  function UpdateChecksum(cksum: nat, oldByte: Byte, newByte: Byte, look: nat, single: Byte -> nat): nat {
    var oldC, newC := single(oldByte), single(newByte);
    var low := (WrappingSub(cksum, oldC) + newC) % U32_BOUND % 0x1_0000;
    var high := (WrappingSub(cksum / 0x1_0000, oldC * look % U32_BOUND) + low) % U32_BOUND % 0x1_0000;
    high * 0x1_0000 + low
  }

  lemma {:induction false} LowFront(s: Bytes, single: Byte -> nat)
    requires s != []
    ensures Low(s, single) == single(s[0]) + Low(s[1..], single)
  {
    if |s| > 1 {
      LowFront(s[..|s| - 1], single);
      assert s[..|s| - 1][1..] == s[1..][..|s| - 2];
    }
  }

  lemma {:induction false} HighFront(s: Bytes, single: Byte -> nat)
    requires s != []
    ensures High(s, single) == |s| * single(s[0]) + High(s[1..], single)
  {
    LowFront(s, single);
    if |s| > 1 {
      var p := s[..|s| - 1];
      HighFront(p, single);
      assert p[1..] == s[1..][..|s| - 2];
      assert |p| * single(s[0]) + single(s[0]) == |s| * single(s[0]);
    }
  }

  lemma Congruent(x: int, y: int, k: int)
    requires x == y + 0x1_0000 * k
    ensures x % 0x1_0000 == y % 0x1_0000
  {
  }

  /** Subtracting and adding with wrap-around at 32 bits is exact modulo 2^16. */
  lemma WrapStep(x: nat, y: int, k: int, minus: nat, plus: nat)
    requires x == y + 0x1_0000 * k
    ensures (WrappingSub(x, minus) + plus) % U32_BOUND % 0x1_0000 == (y - minus + plus) % 0x1_0000
  {
    var t := WrappingSub(x, minus);
    var p, q := (x - minus) / U32_BOUND, (t + plus) / U32_BOUND;
    assert t == x - minus - U32_BOUND * p;
    assert (t + plus) % U32_BOUND == t + plus - U32_BOUND * q;
    Congruent((t + plus) % U32_BOUND, y - minus + plus, k - 0x1_0000 * p - 0x1_0000 * q);
  }

  lemma RollLow(lo: nat, hi: nat, out: nat, enter: nat)
    ensures (WrappingSub(hi % 0x1_0000 * 0x1_0000 + lo % 0x1_0000, out) + enter) % U32_BOUND % 0x1_0000
         == (lo - out + enter) % 0x1_0000
  {
    WrapStep(hi % 0x1_0000 * 0x1_0000 + lo % 0x1_0000, lo, hi % 0x1_0000 - lo / 0x1_0000, out, enter);
  }

  lemma RollHigh(lo: nat, hi: nat, product: nat, low: nat, lo': int)
    requires low == lo' % 0x1_0000
    ensures (WrappingSub((hi % 0x1_0000 * 0x1_0000 + lo % 0x1_0000) / 0x1_0000, product % U32_BOUND) + low)
              % U32_BOUND % 0x1_0000
         == (hi - product + lo') % 0x1_0000
  {
    var h := hi % 0x1_0000;
    assert (h * 0x1_0000 + lo % 0x1_0000) / 0x1_0000 == h;
    WrapStep(h, hi, -(hi / 0x1_0000), product % U32_BOUND, low);
    Congruent(hi - product % U32_BOUND + low, hi - product + lo',
              0x1_0000 * (product / U32_BOUND) - lo' / 0x1_0000);
  }

  lemma RollSums(s: Bytes, look: nat, single: Byte -> nat)
    requires |s| == look + 1
    ensures Low(s[1..], single) == Low(s[..look], single) - single(s[0]) + single(s[look])
    ensures High(s[1..], single) == High(s[..look], single) - single(s[0]) * look + Low(s[1..], single)
  {
    LowFront(s, single);
    HighFront(s, single);
    assert |s| * single(s[0]) == single(s[0]) * look + single(s[0]);
  }

  /** The rolled checksum is the fresh checksum of the next window. */
  lemma RollExact(s: Bytes, look: nat, single: Byte -> nat)
    requires |s| == look + 1
    ensures UpdateChecksum(Checksum(s[..look], single), s[0], s[look], look, single) == Checksum(s[1..], single)
  {
    hide WrappingSub, Low, High;
    RollSums(s, look, single);
    var lo, hi := Low(s[..look], single), High(s[..look], single);
    RollLow(lo, hi, single(s[0]), single(s[look]));
    RollHigh(lo, hi, single(s[0]) * look, Low(s[1..], single) % 0x1_0000, Low(s[1..], single));
  }
}
