/** Facts about remainders. */
module Arithmetic {
  lemma Division(p: nat, size: nat)
    requires size > 0
    ensures p == p / size * size + p % size
  {
  }

  lemma TimesMonotone(a: nat, b: nat, size: nat)
    requires a < b
    ensures a * size + size <= b * size
    decreases b
  {
    assert b * size == (b - 1) * size + size;
    if a < b - 1 {
      TimesMonotone(a, b - 1, size);
    }
  }

  /** Two different numbers with the same remainder are at least the divisor apart. */
  lemma RemaindersApart(p: nat, q: nat, size: nat)
    requires size > 0 && p < q && p % size == q % size
    ensures p + size <= q
  {
    Division(p, size);
    Division(q, size);
    if p / size < q / size {
      TimesMonotone(p / size, q / size, size);
    } else if q / size < p / size {
      TimesMonotone(q / size, p / size, size);
    }
  }

  lemma SmallMod(p: nat, step: nat)
    requires p < step
    ensures p % step == p
  {
  }

  lemma StepMod(p: nat, step: nat)
    requires 0 < step <= p
    ensures (p - step) % step == p % step
  {
    Division(p, step);
    Division(p - step, step);
    var a, b := p / step, (p - step) / step;
    assert (b + 1) * step == b * step + step;
    if a < b + 1 {
      TimesMonotone(a, b + 1, step);
    } else if b + 1 < a {
      TimesMonotone(b + 1, a, step);
    }
  }

  lemma {:induction false} MultiplesVanish(q: nat, k: nat, m: nat)
    requires m > 0
    ensures (q * m + k) % m == k % m
    decreases q
  {
    if q > 0 {
      assert q * m == (q - 1) * m + m;
      StepMod(q * m + k, m);
      MultiplesVanish(q - 1, k, m);
    }
  }

  /** Reducing before adding makes no difference. */
  lemma AddRemainders(x: nat, y: nat, m: nat)
    requires m > 0
    ensures (x % m + y) % m == (x + y) % m
    ensures (x % m + y % m) % m == (x + y) % m
  {
    Division(x, m);
    Division(y, m);
    MultiplesVanish(x / m, x % m + y, m);
    MultiplesVanish(y / m, x % m + y % m, m);
  }

  /** Counting on round a circle. */
  lemma {:induction false} NextRemainder(n: nat, size: nat)
    requires size > 0
    ensures (n % size + 1) % size == (n + 1) % size
    decreases n
  {
    if n < size {
      SmallMod(n, size);
    } else {
      StepMod(n, size);
      StepMod(n + 1, size);
      NextRemainder(n - size, size);
    }
  }
}
