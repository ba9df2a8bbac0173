/** Workout ids: the decimal rendering of the millisecond clock reading
    `Date.now()`, cut to its last ten characters by `.slice(-10)`. The clock
    reading itself is an input. */
module WorkoutIds {

  /** Number of characters `slice(-10)` keeps. */
  const IdLength: nat := 10

  predicate IsDigit(c: char) {
    '0' <= c <= '9'
  }

  predicate AllDigits(s: string) {
    forall i :: 0 <= i < |s| ==> IsDigit(s[i])
  }

  function Pow10(k: nat): (p: nat)
    ensures p >= 1
  {
    if k == 0 then 1 else 10 * Pow10(k - 1)
  }

  function DigitChar(d: nat): (c: char)
    requires d < 10
    ensures IsDigit(c)
  {
    "0123456789"[d]
  }

  function DigitValue(c: char): (d: nat)
    requires IsDigit(c)
    ensures d < 10
  {
    (c - '0') as nat
  }

  /** The number a string of decimal digits denotes (the independent reading
      used to state what `Decimal` and `IdOf` produce). */
  function Value(s: string): nat
    requires AllDigits(s)
  {
    if |s| == 0 then 0 else Value(s[..|s| - 1]) * 10 + DigitValue(s[|s| - 1])
  }

  /** `n + ''` for a non-negative integer below 10^21: its decimal digits,
      most significant first. */
  function Decimal(n: nat): (s: string)
    ensures 1 <= |s| && AllDigits(s)
    ensures n > 0 ==> s[0] != '0'
    ensures n < 10 <==> |s| == 1
  {
    if n < 10 then [DigitChar(n)] else Decimal(n / 10) + [DigitChar(n % 10)]
  }

  /** `s.slice(-k)`: the last `k` characters, or all of `s` when it is
      shorter. `-0` is `0`, so `slice(-0)` keeps the whole string. */
  function SliceFromEnd(s: string, k: nat): (r: string)
    ensures |r| == if k == 0 || |s| < k then |s| else k
    ensures s[..|s| - |r|] + r == s
  {
    s[if k == 0 || |s| < k then 0 else |s| - k..]
  }

  /** The id a workout created at clock reading `now` gets. */
  function IdOf(now: nat): (id: string)
    ensures |id| == if |Decimal(now)| < IdLength then |Decimal(now)| else IdLength
    ensures AllDigits(id) && Decimal(now)[..|Decimal(now)| - |id|] + id == Decimal(now)
  {
    SliceFromEnd(Decimal(now), IdLength)
  }

  lemma {:induction false} ValueOfDecimal(n: nat)
    ensures Value(Decimal(n)) == n
    decreases n
  {
    if n >= 10 {
      var s := Decimal(n);
      assert s[..|s| - 1] == Decimal(n / 10);
      ValueOfDecimal(n / 10);
    }
  }

  lemma {:induction false} ValueBound(s: string)
    requires AllDigits(s)
    ensures Value(s) < Pow10(|s|)
    decreases |s|
  {
    if |s| > 0 {
      ValueBound(s[..|s| - 1]);
    }
  }

  /** Reading a concatenation: the prefix is worth its value shifted left by
      the length of the suffix. */
  lemma {:induction false} ValueConcat(a: string, b: string)
    requires AllDigits(a) && AllDigits(b)
    ensures AllDigits(a + b)
    ensures Value(a + b) == Value(a) * Pow10(|b|) + Value(b)
    decreases |b|
  {
    var ab := a + b;
    if |b| > 0 {
      var b' := b[..|b| - 1];
      assert ab[..|ab| - 1] == a + b';
      assert ab[|ab| - 1] == b[|b| - 1];
      ValueConcat(a, b');
      var d := DigitValue(b[|b| - 1]);
      assert Value(ab) == Value(a + b') * 10 + d;
      assert Value(b) == Value(b') * 10 + d;
      ShiftStep(Value(a), Pow10(|b'|), Value(b'), d);
    } else {
      assert ab == a;
    }
  }

  lemma ShiftStep(v: int, p: int, w: int, d: int)
    ensures (v * p + w) * 10 + d == v * (p * 10) + (w * 10 + d)
  {
  }

  lemma {:induction false} MulAtLeast(k: int, p: nat)
    requires k >= 1
    ensures k * p >= p
    decreases k
  {
    if k > 1 {
      MulAtLeast(k - 1, p);
      assert k * p == (k - 1) * p + p;
    }
  }

  /** Euclidean division is unique: a remainder in [0, p) fixes quotient and remainder. */
  lemma DivModUnique(x: int, p: nat, q: int, r: int)
    requires 0 <= r < p && x == q * p + r
    ensures x / p == q && x % p == r
  {
    var q0, r0 := x / p, x % p;
    assert (q - q0) * p == r0 - r;
    if q > q0 {
      MulAtLeast(q - q0, p);
    } else if q < q0 {
      MulAtLeast(q0 - q, p);
    }
  }

  /** A suffix of a digit string denotes the value modulo the matching power of ten. */
  lemma ValueOfSuffix(s: string, k: nat)
    requires AllDigits(s) && k <= |s|
    ensures Value(s[|s| - k..]) == Value(s) % Pow10(k)
  {
    var pre, suf := s[..|s| - k], s[|s| - k..];
    assert pre + suf == s;
    ValueConcat(pre, suf);
    ValueBound(suf);
    DivModUnique(Value(s), Pow10(k), Value(pre), Value(suf));
  }

  /** Two digit strings of the same length that denote the same number are equal. */
  lemma {:induction false} ValueInjective(s: string, t: string)
    requires AllDigits(s) && AllDigits(t) && |s| == |t|
    requires Value(s) == Value(t)
    ensures s == t
    decreases |s|
  {
    if |s| > 0 {
      var s', t' := s[..|s| - 1], t[..|t| - 1];
      var ds, dt := DigitValue(s[|s| - 1]), DigitValue(t[|t| - 1]);
      DivModUnique(Value(s), 10, Value(s'), ds);
      DivModUnique(Value(t), 10, Value(t'), dt);
      assert ds == dt;
      assert Value(s') == Value(t');
      ValueInjective(s', t');
      assert s == s' + [s[|s| - 1]];
      assert t == t' + [t[|t| - 1]];
    }
  }

  /** An id is at most ten decimal digits and denotes the clock reading modulo 10^10:
      ids repeat every 10^10 milliseconds (about 115.7 days). */
  lemma IdDenotesClockModulo(now: nat)
    ensures |IdOf(now)| <= IdLength && AllDigits(IdOf(now))
    ensures Value(IdOf(now)) == now % Pow10(IdLength)
  {
    var s := Decimal(now);
    ValueOfDecimal(now);
    if |s| >= IdLength {
      ValueOfSuffix(s, IdLength);
    } else {
      ValueBound(s);
      Pow10Monotone(|s|, IdLength);
      DivModUnique(now, Pow10(IdLength), 0, now);
      assert s[0..] == s;
    }
  }

  lemma {:induction false} Pow10Monotone(j: nat, k: nat)
    requires j <= k
    ensures Pow10(j) <= Pow10(k)
    decreases k - j
  {
    if j < k {
      Pow10Monotone(j, k - 1);
    }
  }

  /** A clock reading of at least 10^9 ms renders to ten or more digits, so its id
      has exactly ten. */
  lemma FullLengthId(now: nat)
    requires now >= Pow10(IdLength - 1)
    ensures |IdOf(now)| == IdLength
  {
    var s := Decimal(now);
    ValueOfDecimal(now);
    ValueBound(s);
    if |s| < IdLength {
      Pow10Monotone(|s|, IdLength - 1);
    }
  }

  /** Two clock readings of at least 10^9 ms give the same id exactly when they
      agree modulo 10^10; in particular readings in the same millisecond collide. */
  lemma IdsCollideIffSameModulo(a: nat, b: nat)
    requires a >= Pow10(IdLength - 1) && b >= Pow10(IdLength - 1)
    ensures IdOf(a) == IdOf(b) <==> a % Pow10(IdLength) == b % Pow10(IdLength)
  {
    IdDenotesClockModulo(a);
    IdDenotesClockModulo(b);
    FullLengthId(a);
    FullLengthId(b);
    if a % Pow10(IdLength) == b % Pow10(IdLength) {
      ValueInjective(IdOf(a), IdOf(b));
    }
  }

  /** Readings less than 10^10 ms apart give different ids. */
  lemma CloseReadingsDistinctIds(a: nat, b: nat)
    requires Pow10(IdLength - 1) <= a < b < a + Pow10(IdLength)
    ensures IdOf(a) != IdOf(b)
  {
    IdsCollideIffSameModulo(a, b);
    if a % Pow10(IdLength) == b % Pow10(IdLength) {
      SameResidueApart(a, b, Pow10(IdLength));
    }
  }

  /** Two distinct numbers with the same residue modulo `m` are at least `m` apart. */
  lemma SameResidueApart(a: nat, b: nat, m: nat)
    requires 0 < m && a < b && a % m == b % m
    ensures b - a >= m
  {
    var qa, qb, r := a / m, b / m, a % m;
    assert a == qa * m + r && b == qb * m + r;
    assert b - a == (qb - qa) * m;
    if qb - qa >= 1 {
      MulAtLeast(qb - qa, m);
    } else if qb - qa <= -1 {
      MulAtLeast(qa - qb, m);
    }
  }
}
