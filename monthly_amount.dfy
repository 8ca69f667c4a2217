/** The monthly charge of one member: a fixed amount, and a progressive
    amount that grows by a per-quota increment each month. Both are total:
    an absent consortium or member gives 0, and a zero term or zero quota
    count falls back to 1 before any division. */
module MonthlyAmount {
  import opened Records

  /** `Math.round(x * 100) / 100`: JavaScript's `Math.round` is `floor(y + 0.5)`,
      so a half cent is rounded up (see Round2IsNearestCent). */
  function Round2(x: real): real {
    ((x * 100.0 + 0.5).Floor as real) / 100.0
  }

  /** The rounded amount is a whole number of cents and the nearest one,
      halves going up. */
  lemma Round2IsNearestCent(x: real)
    ensures IsWhole(Round2(x) * 100.0)
    ensures x - 0.005 < Round2(x) <= x + 0.005
  {
    var k := (x * 100.0 + 0.5).Floor;
    assert Round2(x) * 100.0 == k as real;
  }

  /** `parseInt(n) || 1`: zero (the stand-in for an absent field) becomes 1. */
  function OrOne(n: int): (r: int)
    ensures r != 0
    ensures n != 0 ==> r == n
  {
    if n == 0 then 1 else n
  }

  /** `parseFloat(q) || 1` for the member's quota count. */
  function OrOneReal(q: real): (r: real)
    ensures r != 0.0
    ensures q != 0.0 ==> r == q
  {
    if q == 0.0 then 1.0 else q
  }

  /** The value of one quota per month: the pool plus the manager's fee over
      the whole term, shared out over the consortium's quotas. */
  function PerQuotaBase(c: Consortium): real {
    (c.totalAmount + c.managerFee * (OrOne(c.termMonths) as real)) / (OrOne(c.totalQuotas) as real)
  }

  /** The month the progressive amount is for when none is given: the months
      elapsed since the start plus one, clamped to [1, term]. The elapsed
      month count comes from the clock and is a parameter here. */
  function CurrentMonth(term: int, elapsedMonths: int): (m: int)
    ensures m >= 1
    ensures term >= 1 ==> m <= term
    ensures 1 <= elapsedMonths + 1 <= term ==> m == elapsedMonths + 1
    ensures term >= 1 && elapsedMonths + 1 > term ==> m == term
    ensures elapsedMonths + 1 < 1 ==> m == 1
  {
    var capped := if term < elapsedMonths + 1 then term else elapsedMonths + 1;
    if capped < 1 then 1 else capped
  }

  /** calcularMontanteFixoMensal */
  function FixedMonthly(c: Option<Consortium>, quotas: Option<real>): real {
    if c.None? || quotas.None? then 0.0
    else FixedAt(c.value, quotas.value)
  }

  /** The fixed amount of a present consortium and member. */
  function FixedAt(c: Consortium, q: real): real {
    Round2(FixedExact(c, q))
  }

  /** The fixed amount before rounding: the per-quota base times the quota count. */
  function FixedExact(c: Consortium, q: real): real {
    PerQuotaBase(c) * OrOneReal(q)
  }

  /** calcularMontanteMensalProgressivo; `month` None or 0 means "not given". */
  function ProgressiveMonthly(c: Option<Consortium>, quotas: Option<real>, month: Option<int>,
                              elapsedMonths: int): real
  {
    if c.None? || quotas.None? then 0.0
    else
      var m := if month.None? || month.value == 0
               then CurrentMonth(OrOne(c.value.termMonths), elapsedMonths)
               else month.value;
      ProgressiveAt(c.value, quotas.value, m)
  }

  /** The progressive amount once the month is known. */
  function ProgressiveAt(c: Consortium, q: real, m: int): real {
    Round2(ProgressiveExact(c, q, m))
  }

  /** (per-quota base + increment * (m - 1)) * quota count, before rounding. */
  function ProgressiveExact(c: Consortium, q: real, m: int): real {
    (PerQuotaBase(c) + c.monthlyIncrement * (m - 1) as real) * OrOneReal(q)
  }

  // ------------------------------------------------------------- properties

  lemma AbsentGivesZero(c: Option<Consortium>, quotas: Option<real>, month: Option<int>, elapsed: int)
    requires c.None? || quotas.None?
    ensures FixedMonthly(c, quotas) == 0.0
    ensures ProgressiveMonthly(c, quotas, month, elapsed) == 0.0
  {
  }

  lemma Round2Monotone(x: real, y: real)
    requires x <= y
    ensures Round2(x) <= Round2(y)
  {
    assert (x * 100.0 + 0.5).Floor <= (y * 100.0 + 0.5).Floor;
  }

  /** A value that already is a whole number of cents is left as it is. */
  lemma Round2OfCents(k: int)
    ensures Round2(k as real / 100.0) == k as real / 100.0
  {
    assert (k as real / 100.0) * 100.0 + 0.5 == k as real + 0.5;
    assert (k as real + 0.5).Floor == k;
  }

  /** For a valid consortium and a non-zero quota count the unrounded fixed
      amount is the member's share ((total + fee * term) / quotas) * q. */
  lemma FixedExactIsShare(c: Consortium, q: real)
    requires ValidConsortium(c) && q != 0.0
    ensures FixedExact(c, q) == (c.totalAmount + c.managerFee * c.termMonths as real) / c.totalQuotas as real * q
  {
    assert OrOne(c.termMonths) == c.termMonths && OrOne(c.totalQuotas) == c.totalQuotas;
    assert OrOneReal(q) == q;
  }

  /** For a valid consortium the fixed amount is the member's share rounded
      half up to whole cents: a whole number of cents within half a cent of it. */
  lemma FixedIsRoundedShare(c: Consortium, q: real)
    requires ValidConsortium(c) && q != 0.0
    ensures var exact := (c.totalAmount + c.managerFee * c.termMonths as real) / c.totalQuotas as real * q;
            var r := FixedMonthly(Some(c), Some(q));
            IsWhole(r * 100.0) && exact - 0.005 < r <= exact + 0.005
  {
    FixedExactIsShare(c, q);
    Round2IsNearestCent(FixedExact(c, q));
  }

  /** 12000 over 12 months and 12 quotas, no fee, one quota: 1000.00 a month. */
  lemma FixedExample(start: Date)
    ensures FixedMonthly(Some(Consortium(0, 12000.0, 12, 12, 0.0, 0.0, start, Ativo)), Some(1.0)) == 1000.0
  {
    var c := Consortium(0, 12000.0, 12, 12, 0.0, 0.0, start, Ativo);
    assert FixedExact(c, 1.0) == 1000.0;
    Round2OfCents(100000);
  }

  /** In month 1 the increment contributes nothing: the progressive amount
      equals the fixed one. */
  lemma ProgressiveMonthOneIsFixed(c: Option<Consortium>, quotas: Option<real>, elapsed: int)
    ensures ProgressiveMonthly(c, quotas, Some(1), elapsed) == FixedMonthly(c, quotas)
  {
    if c.Some? && quotas.Some? {
      assert ProgressiveExact(c.value, quotas.value, 1) == FixedExact(c.value, quotas.value) by {
        assert c.value.monthlyIncrement * (1 - 1) as real == 0.0;
      }
    }
  }

  lemma MulMonotone(a: real, b: real, k: real)
    requires a <= b && k >= 0.0
    ensures a * k <= b * k
  {
    assert b * k - a * k == (b - a) * k;
  }

  /** With a non-negative increment the amount never decreases from one month to a later one. */
  lemma ProgressiveNonDecreasing(c: Consortium, q: real, m1: int, m2: int, elapsed: int)
    requires c.monthlyIncrement >= 0.0 && q >= 0.0
    requires 1 <= m1 <= m2
    ensures ProgressiveMonthly(Some(c), Some(q), Some(m1), elapsed)
         <= ProgressiveMonthly(Some(c), Some(q), Some(m2), elapsed)
  {
    var base, inc, k := PerQuotaBase(c), c.monthlyIncrement, OrOneReal(q);
    assert ProgressiveExact(c, q, m1) <= ProgressiveExact(c, q, m2) by {
      assert k >= 0.0;
      MulMonotone((m1 - 1) as real, (m2 - 1) as real, inc);
      MulMonotone(base + inc * (m1 - 1) as real, base + inc * (m2 - 1) as real, k);
    }
    Round2Monotone(ProgressiveExact(c, q, m1), ProgressiveExact(c, q, m2));
  }

  /** The unrounded progressive amount is the unrounded fixed amount plus
      increment * (m - 1) per quota. */
  lemma ProgressiveExactSplit(c: Consortium, q: real, m: int)
    requires q != 0.0
    ensures ProgressiveExact(c, q, m) == FixedExact(c, q) + c.monthlyIncrement * (m - 1) as real * q
  {
    assert OrOneReal(q) == q;
  }

  /** The increment is added per quota before multiplying by the quota count:
      month m costs the fixed amount plus increment * (m - 1) * quotas, up to
      the two roundings (less than one cent). */
  lemma ProgressiveAddsIncrementPerQuota(c: Consortium, q: real, m: int, elapsed: int)
    requires q != 0.0 && m != 0
    ensures var diff := ProgressiveMonthly(Some(c), Some(q), Some(m), elapsed) - FixedMonthly(Some(c), Some(q));
            var inc := c.monthlyIncrement * (m - 1) as real * q;
            inc - 0.01 < diff < inc + 0.01
  {
    ProgressiveExactSplit(c, q, m);
    Round2IsNearestCent(FixedExact(c, q));
    Round2IsNearestCent(ProgressiveExact(c, q, m));
  }
}
