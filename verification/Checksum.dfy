/** The Adler-32 checksum of a target window. */
module Checksum {
  import opened Base
  import opened Arithmetic

  const MOD_ADLER := 65521

  /** The two running sums after all of `data`. */
  function Sums(data: Bytes): (r: (nat, nat))
    ensures r.0 < MOD_ADLER && r.1 < MOD_ADLER
  {
    if data == [] then (1, 0)
    else
      var (a, b) := Sums(data[..|data| - 1]);
      var a' := (a + data[|data| - 1]) % MOD_ADLER;
      (a', (b + a') % MOD_ADLER)
  }

  function Adler32(data: Bytes): (c: nat)
    ensures c < U32_BOUND
  {
    Sums(data).1 * 0x1_0000 + Sums(data).0
  }

  function Total(data: Bytes): nat {
    if data == [] then 0 else Total(data[..|data| - 1]) + data[|data| - 1]
  }

  /** The sum of the totals of all prefixes: a byte counts once for every byte from it to the end. */
  function TotalOfTotals(data: Bytes): nat {
    if data == [] then 0 else TotalOfTotals(data[..|data| - 1]) + Total(data)
  }

  /** The sums are one plus the total, and that summed over all prefixes, modulo the largest prime below 2^16. */
  lemma {:induction false} SumsAre(data: Bytes)
    ensures Sums(data).0 == (1 + Total(data)) % MOD_ADLER
    ensures Sums(data).1 == (|data| + TotalOfTotals(data)) % MOD_ADLER
    decreases |data|
  {
    if data != [] {
      var n := |data| - 1;
      SumsAre(data[..n]);
      AddRemainders(1 + Total(data[..n]), data[n], MOD_ADLER);
      AddRemainders(n + TotalOfTotals(data[..n]), 1 + Total(data), MOD_ADLER);
    }
  }

  method ComputeAdler32(data: Bytes) returns (c: nat)
    ensures c == Adler32(data)
  {
    var a, b := 1, 0;
    for i := 0 to |data|
      invariant (a, b) == Sums(data[..i])
    {
      assert data[..i + 1][..i] == data[..i];
      a := (a + data[i]) % MOD_ADLER;
      b := (b + a) % MOD_ADLER;
    }
    assert data[..|data|] == data;
    c := b * 0x1_0000 + a;
  }
}
