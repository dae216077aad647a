/** The inversion of a timer frequency: a decimal long division that stops when the
    period is exact or has as many digits as its 32-bit variable can hold. */
module TimerFreq {
  import opened Options
  import opened Arith

  const UINT_MAX: nat := 4294967295
  const LIMIT: nat := 429496719      // UINT_MAX / 10 - 10

  datatype Qtime = Qtime(period: nat, scale: int)

  function Ten(k: nat): (p: nat)
    ensures p >= 1
  {
    if k == 0 then 1 else 10 * Ten(k - 1)
  }

  /** The frequency that is inverted, and the exponent paid for making it fit. */
  function Fitted(freq: nat): nat { if freq > UINT_MAX / 10 then freq / 10 else freq }

  function Paid(freq: nat): (p: int)
    ensures 0 <= p <= 1
  {
    if freq > UINT_MAX / 10 then 1 else 0
  }

  /** The division may stop at `k` digits. */
  predicate Enough(f: nat, k: nat)
    requires f >= 1
  {
    Ten(k) % f == 0 || Ten(k) / f >= LIMIT
  }

  /** The quotient of the shortest sufficient power of ten. */
  ghost predicate Inverse(f: nat, k: nat, period: nat)
    requires f >= 1
  {
    period == Ten(k) / f && Enough(f, k) && forall j :: 0 <= j < k ==> !Enough(f, j)
  }

  /** The state at the head of the loop: the first digits and what is left to divide. */
  ghost predicate Dividing(f: nat, k: nat, period: nat, quot: nat) {
    && f >= 1 && Ten(k) == 10 * (period * f) + quot && 0 < quot < 10 * f && period < LIMIT
    && forall j :: 0 <= j < k ==> !Enough(f, j)
  }

  /** One digit of the quotient of `t`. */
  lemma Digit(t: nat, f: nat, period: nat, quot: nat)
    requires f >= 1 && t == 10 * (period * f) + quot && quot < 10 * f
    ensures quot / f <= 9 && 10 * period + quot / f == t / f && quot % f == t % f
    ensures quot % f < f && (quot / f == 0 ==> quot % f == quot)
  {
    var d, r := quot / f, quot % f;
    QuotientBelow(quot, f, 10);
    assert f * (10 * period + d) == 10 * (period * f) + f * d;
    QuotientIs(t, f, 10 * period + d, r);
  }

  /** One digit does not leave 32 bits, and makes progress. */
  lemma DigitFits(t: nat, f: nat, period: nat, quot: nat)
    requires 1 <= f <= 429496729 && t == 10 * (period * f) + quot && 0 < quot < 10 * f && period < 429496719
    ensures period * 10 + quot / f == t / f <= 4294967295
    ensures quot % f == t % f && 10 * (quot % f) <= 4294967295
    ensures t / f > period || (t / f == period && t % f == quot)
  {
    Digit(t, f, period, quot);
    var d, r := quot / f, quot % f;
    assert d <= 9 && r < f;
  }

  /** The remainder, times ten, is what the next digit comes from. */
  lemma NextDigit(f: nat, k: nat, period: nat)
    requires f >= 1 && period == Ten(k) / f && !Enough(f, k)
    requires forall j :: 0 <= j < k ==> !Enough(f, j)
    ensures Dividing(f, k + 1, period, 10 * (Ten(k) % f))
  {
    assert Ten(k) == period * f + Ten(k) % f;
  }

  lemma RemainderSmall(t: nat, f: nat, period: nat)
    requires f >= 1 && period == t / f && period >= 429496719
    ensures (t - period * f) * 429496719 < t
  {
    var r := t % f;
    assert t == f * period + r;
    ProductGrows(f, 429496719, period);
  }

  lemma QuotientTimes(t: nat, f: nat)
    requires f >= 1
    ensures (t / f) * f + t % f == t
  {
  }

  lemma CloseTo(t: nat, f: nat, period: nat)
    requires f >= 1 && period == t / f && (t % f == 0 || period >= 429496719)
    ensures period * f <= t && (period * f == t || (t - period * f) * 429496719 < t)
  {
    QuotientTimes(t, f);
    if t % f != 0 {
      RemainderSmall(t, f, period);
    }
  }

  /** The inverse is exact, or off by less than one part in LIMIT. */
  lemma InverseClose(f: nat, k: nat, period: nat)
    requires f >= 1 && Inverse(f, k, period)
    ensures period * f <= Ten(k)
    ensures period * f == Ten(k) || (Ten(k) - period * f) * LIMIT < Ten(k)
  {
    CloseTo(Ten(k), f, period);
  }

  /** The period is determined by the frequency. */
  lemma InverseUnique(f: nat, k: nat, period: nat, k': nat, period': nat)
    requires f >= 1 && Inverse(f, k, period) && Inverse(f, k', period')
    ensures k == k' && period == period'
  {
  }

  /** For a frequency that had to be divided by ten: the product of frequency and stored
      period against one second, in units of ten to the scale. */
  lemma DividedClose(freq: nat, k: nat, period: nat)
    requires UINT_MAX / 10 < freq <= UINT_MAX && Inverse(Fitted(freq), k, period)
    ensures Ten(k + 1) - 10 * Fitted(freq) < period * freq <= Ten(k + 1) + 9 * period
  {
    var f := Fitted(freq);
    QuotientTimes(Ten(k), f);
    TenTimes(Ten(k), f, period, Ten(k) % f, freq);
  }

  lemma TenTimes(t: nat, f: nat, period: nat, r: nat, freq: nat)
    requires t == period * f + r && r < f && 10 * f <= freq <= 10 * f + 9
    ensures 10 * t - 10 * f < period * freq <= 10 * t + 9 * period
  {
    var x := freq - 10 * f;
    assert period * freq == 10 * (period * f) + period * x;
    ProductGrows(period, 0, x);
    ProductGrows(period, x, 9);
  }

  /** Period times frequency is one second, in units of ten to the scale: exactly, or but for
      one part in LIMIT; a frequency above the range of the division loses its last digit. */
  ghost predicate Close(freq: nat, period: nat, e: nat) {
    if freq <= UINT_MAX / 10 then
      period * freq <= Ten(e) && (period * freq == Ten(e) || (Ten(e) - period * freq) * LIMIT < Ten(e))
    else
      Ten(e) - 10 * (freq / 10) < period * freq <= Ten(e) + 9 * period
  }

  lemma InvertedClose(freq: nat, k: nat, period: nat)
    requires 1 <= freq <= UINT_MAX && Inverse(Fitted(freq), k, period)
    ensures Close(freq, period, k + Paid(freq))
  {
    if freq <= UINT_MAX / 10 {
      InverseClose(freq, k, period);
    } else {
      DividedClose(freq, k, period);
    }
  }

  /** The arithmetic of one pass, which does not leave 32 bits. */
  method OneDigit(f: nat, ghost k: nat, period: nat, quot: nat) returns (p: nat, rem: nat)
    requires Dividing(f, k, period, quot) && f <= 429496729
    ensures p == Ten(k) / f && rem == Ten(k) % f
    ensures p <= UINT_MAX && 10 * rem <= UINT_MAX
    ensures p > period || (p == period && 0 < rem == quot)
  {
    DigitFits(Ten(k), f, period, quot);
    var div := quot / f;
    p := period * 10 + div;
    rem := quot % f;
  }

  /** `invert_timer_freq`; None stands for the crash on a zero frequency. */
  method InvertTimerFreq(freq: nat) returns (q: Option<Qtime>)
    requires freq <= UINT_MAX
    ensures q.None? <==> freq == 0
    ensures q.Some? ==> q.value.period <= UINT_MAX
    ensures q.Some? ==> q.value.scale <= -Paid(freq) && Inverse(Fitted(freq), -q.value.scale - Paid(freq), q.value.period)
    ensures q.Some? ==> q.value.scale <= 0 && Close(freq, q.value.period, -q.value.scale)
  {
    if freq == 0 {
      return None;
    }
    var quot: nat, scale: int, period: nat, f: nat := 1, 0, 0, freq;
    if freq > UINT_MAX / 10 {
      scale := scale - 1;
      f := freq / 10;
    }
    ghost var k: nat := 0;
    while true
      invariant f == Fitted(freq) && scale + k == -Paid(freq) && Dividing(f, k, period, quot)
      decreases LIMIT - period, 10 * f - quot
    {
      var rem: nat;
      period, rem := OneDigit(f, k, period, quot);
      if period >= LIMIT {
        break;
      }
      if rem == 0 {
        break;
      }
      NextDigit(f, k, period);
      scale := scale - 1;
      quot := rem * 10;
      k := k + 1;
    }
    InvertedClose(freq, k, period);
    q := Some(Qtime(period, scale));
  }
}
