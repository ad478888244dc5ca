/** Facts about cyclic positions that several ring-like structures share. */
module ModArith {

  /** Position of the k-th element written to a ring of n slots. */
  function Slot(k: nat, n: nat): (r: nat)
    requires n > 0
    ensures r < n
  {
    k % n
  }

  /** Value of the phase bit in the lap that contains k: true in even laps. */
  predicate Phase(k: nat, n: nat)
    requires n > 0
  {
    (k / n) % 2 == 0
  }

  lemma SmallMultiple(d: int, n: nat)
    requires 0 - n < d * n < n
    ensures d == 0
  {
    assert d >= 1 ==> (d - 1) * n >= 0;
    assert d <= -1 ==> (-1 - d) * n >= 0;
  }

  lemma Distribute(p: int, q: int, n: int)
    ensures (p + q) * n == p * n + q * n
  {
  }

  lemma MulLe(a: int, b: int, m: nat)
    requires a <= b
    ensures a * m <= b * m
  {
    Distribute(b - a, a, m);
    assert (b - a) * m >= 0;
  }

  function Min(a: int, b: int): (m: int) {
    if a < b then a else b
  }

  lemma DivModUnique(a: nat, n: nat, q: nat, r: nat)
    requires n > 0 && r < n && a == q * n + r
    ensures a / n == q && a % n == r
  {
    assert a == (a / n) * n + a % n;
    SmallMultiple(a / n - q, n);
  }

  lemma SlotDistinct(a: nat, b: nat, n: nat)
    requires n > 0 && a < b < a + n
    ensures Slot(a, n) != Slot(b, n)
  {
    var q, r := a / n, a % n;
    assert a == q * n + r;
    if r + (b - a) < n {
      DivModUnique(b, n, q, r + (b - a));
    } else {
      assert (q + 1) * n == q * n + n;
      DivModUnique(b, n, q + 1, r + (b - a) - n);
    }
  }

  lemma SlotSucc(a: nat, n: nat)
    requires n > 0
    ensures Slot(a + 1, n) == if Slot(a, n) == n - 1 then 0 else Slot(a, n) + 1
    ensures Phase(a + 1, n) == if Slot(a, n) == n - 1 then !Phase(a, n) else Phase(a, n)
  {
    var q, r := a / n, a % n;
    if r == n - 1 {
      assert (q + 1) * n == q * n + n;
      DivModUnique(a + 1, n, q + 1, 0);
    } else {
      DivModUnique(a + 1, n, q, r + 1);
    }
  }

  lemma SlotLap(a: nat, n: nat)
    requires n > 0
    ensures Slot(a + n, n) == Slot(a, n)
    ensures Phase(a + n, n) == !Phase(a, n)
  {
    var q, r := a / n, a % n;
    assert (q + 1) * n == q * n + n;
    DivModUnique(a + n, n, q + 1, r);
  }

  /** Adding inside the modulus does not depend on reducing first. */
  lemma SlotAdd(a: nat, b: nat, n: nat)
    requires n > 0
    ensures Slot(Slot(a, n) + b, n) == Slot(a + b, n)
  {
    var q, r := a / n, a % n;
    var q', r' := (r + b) / n, (r + b) % n;
    Distribute(q, q', n);
    DivModUnique(a + b, n, q + q', r');
  }

  lemma SlotSmall(a: nat, n: nat)
    requires n > 0 && a < 2 * n
    ensures Slot(a, n) == if a < n then a else a - n
  {
    if a < n {
      DivModUnique(a, n, 0, a);
    } else {
      DivModUnique(a, n, 1, a - n);
    }
  }
}
