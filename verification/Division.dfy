/** Facts about floor division by a positive step. */
module Division {
  lemma MultipleMod(q: int, step: int)
    requires step > 0
    ensures (q * step) % step == 0
  {
    assert q * step == q * step + 0;
    ModIsUnique(q * step, q, 0, step);
  }

  lemma FactorBound(k: int, step: int)
    requires step > 0
    ensures k >= 1 ==> k * step >= step
    ensures k <= -1 ==> k * step <= -step
  {
    if k >= 1 {
      assert (k - 1) * step >= 0;
    } else if k <= -1 {
      assert (-1 - k) * step >= 0;
    }
  }

  lemma ModIsUnique(a: int, q: int, r: int, step: int)
    requires step > 0 && a == q * step + r && 0 <= r < step
    ensures a / step == q && a % step == r
  {
    var q', r' := a / step, a % step;
    assert a == q' * step + r';
    assert (q - q') * step == q * step - q' * step;
    FactorBound(q - q', step);
  }
}
