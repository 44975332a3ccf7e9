/** Facts about Euclidean division that the cursors of the model need: the
    frame cursor of MODBUS_BuildFrame and the TIM2 counter both count
    modulo a period. */
module ModArith {

  lemma MulMonotone(a: int, n: int)
    requires a >= 1 && n > 0
    ensures a * n >= n
  {
  }

  /** Euclidean division has exactly one remainder. */
  lemma DivModUnique(x: int, n: int, q: int, r: int)
    requires n > 0 && 0 <= r < n && x == q * n + r
    ensures x % n == r
  {
    var q', r' := x / n, x % n;
    assert x == q' * n + r';
    assert (q - q') * n == r' - r;
    if q > q' {
      MulMonotone(q - q', n);
    } else if q < q' {
      MulMonotone(q' - q, n);
    }
  }

  /** Counting one more step wraps the remainder as the cursor does. */
  lemma ModNext(x: nat, n: nat)
    requires n > 0
    ensures (x + 1) % n == if x % n + 1 == n then 0 else x % n + 1
  {
    var q, r := x / n, x % n;
    assert x == q * n + r;
    if r + 1 == n {
      DivModUnique(x + 1, n, q + 1, 0);
    } else {
      DivModUnique(x + 1, n, q, r + 1);
    }
  }
}
