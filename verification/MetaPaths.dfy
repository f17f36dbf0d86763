/**
 Metadata paths as mixed-radix numbers. A path of k digits names one slot per tree level; all digits
 but the first are below the fan-out.
 */
module MetaPaths {
  const TWO_64: nat := 0x1_0000_0000_0000_0000

  ghost function Pow(f: nat, k: nat): nat {
    if k == 0 then 1 else f * Pow(f, k - 1)
  }

  lemma PowZero(f: nat)
    ensures Pow(f, 0) == 1
  {
  }

  lemma PowNext(f: nat, k: nat)
    ensures Pow(f, k + 1) == Pow(f, k) * f
  {
  }

  // Quotient and remainder of unsigned division, by repeated subtraction.
  ghost function Quot(n: nat, f: nat): nat
    requires f > 0
  {
    if n < f then 0 else 1 + Quot(n - f, f)
  }

  ghost function Rem(n: nat, f: nat): nat
    requires f > 0
  {
    if n < f then n else Rem(n - f, f)
  }

  lemma {:induction false} QuotRem(n: nat, f: nat)
    requires f > 0
    ensures n == Quot(n, f) * f + Rem(n, f) && Rem(n, f) < f
  {
    if n >= f {
      QuotRem(n - f, f);
      assert (1 + Quot(n - f, f)) * f == f + Quot(n - f, f) * f;
    }
  }

  lemma {:induction false} QuotRemUnique(q: nat, f: nat, r: nat)
    requires r < f
    ensures Quot(q * f + r, f) == q && Rem(q * f + r, f) == r
  {
    if q > 0 {
      assert q * f + r == (q - 1) * f + r + f;
      assert (q - 1) * f >= 0;
      QuotRemUnique(q - 1, f, r);
    }
  }

  // The division operators of C compute these.
  lemma DivIsQuot(n: nat, f: nat)
    requires f > 0
    ensures n / f == Quot(n, f) && n % f == Rem(n, f)
  {
    var q, r := n / f, n % f;
    assert n == f * q + r;
    assert q >= 0;
    assert f * q == q * f;
    QuotRemUnique(q, f, r);
  }

  // The logical position a path stands for.
  ghost function Value(p: seq<nat>, f: nat): nat {
    if p == [] then 0 else Value(p[..|p| - 1], f) * f + p[|p| - 1]
  }

  // The path of k digits of a logical position. The first digit takes whatever is left over.
  ghost function Digits(n: nat, f: nat, k: nat): (p: seq<nat>)
    requires f > 0
    ensures |p| == k
    decreases k
  {
    if k == 0 then [] else if k == 1 then [n] else Digits(Quot(n, f), f, k - 1) + [Rem(n, f)]
  }

  // All digits but the first are below the fan-out.
  ghost predicate Proper(p: seq<nat>, f: nat) {
    forall i | 0 < i < |p| :: p[i] < f
  }

  lemma {:induction false} DigitsProper(n: nat, f: nat, k: nat)
    requires f > 0
    ensures Proper(Digits(n, f, k), f)
    decreases k
  {
    if k > 1 {
      QuotRem(n, f);
      DigitsProper(Quot(n, f), f, k - 1);
    }
  }

  lemma {:induction false} ValueDigits(n: nat, f: nat, k: nat)
    requires f > 0 && k > 0
    ensures Value(Digits(n, f, k), f) == n
    decreases k
  {
    var p := Digits(n, f, k);
    if k == 1 {
      assert p[..0] == [];
    } else {
      ValueDigits(Quot(n, f), f, k - 1);
      assert p[..k - 1] == Digits(Quot(n, f), f, k - 1);
      QuotRem(n, f);
    }
  }

  lemma {:induction false} DigitsValue(p: seq<nat>, f: nat)
    requires f > 0 && |p| > 0 && Proper(p, f)
    ensures Digits(Value(p, f), f, |p|) == p
  {
    if |p| == 1 {
      assert p[..0] == [];
    } else {
      var q, d := p[..|p| - 1], p[|p| - 1];
      DigitsValue(q, f);
      QuotRemUnique(Value(q, f), f, d);
      assert p == q + [d];
    }
  }

  // Appending a digit.
  lemma ValueSnoc(p: seq<nat>, d: nat, f: nat)
    ensures Value(p + [d], f) == Value(p, f) * f + d
  {
    assert (p + [d])[..|p|] == p;
  }

  lemma Associate(a: nat, b: nat, c: nat)
    ensures (a * b) * c == a * (b * c)
  {
  }

  // The first digit stays below the number of slots of the top node exactly below the tree's capacity.
  lemma {:induction false} FirstDigit(n: nat, f: nat, k: nat, top: nat)
    requires f > 0 && k > 0
    ensures Digits(n, f, k)[0] < top <==> n < top * Pow(f, k - 1)
    decreases k
  {
    if k > 1 {
      FirstDigit(Quot(n, f), f, k - 1, top);
      assert Digits(n, f, k)[0] == Digits(Quot(n, f), f, k - 1)[0];
      var c := top * Pow(f, k - 2);
      Associate(top, Pow(f, k - 2), f);
      QuotBelow(n, f, c);
    }
  }

  lemma QuotBelow(n: nat, f: nat, c: nat)
    requires f > 0
    ensures Quot(n, f) < c <==> n < c * f
  {
    QuotRem(n, f);
    var q := Quot(n, f);
    if q < c {
      MulMonotone(q + 1, c, f);
      assert (q + 1) * f == q * f + f;
    } else {
      MulMonotone(c, q, f);
    }
  }

  lemma MulMonotone(a: nat, b: nat, f: nat)
    requires a <= b
    ensures a * f <= b * f
  {
    assert b * f == a * f + (b - a) * f;
  }

  // Value as the sum of digits times their factors, the form the conversion loops compute.
  ghost function WeightedSum(p: seq<nat>, w: seq<nat>, k: nat): nat
    requires k <= |p| && k <= |w|
  {
    if k == 0 then 0 else WeightedSum(p, w, k - 1) + p[k - 1] * w[k - 1]
  }

  // w[h] is the number of units one slot at level h spans; a slot of the last level spans u of them.
  ghost predicate Factors(w: seq<nat>, u: nat, f: nat, h: nat) {
    h <= |w| && forall i | 0 <= i < h :: w[i] == Pow(f, h - 1 - i) * u
  }

  lemma {:induction false} SumIsValue(p: seq<nat>, w: seq<nat>, u: nat, f: nat, h: nat, k: nat)
    requires 0 < k <= h <= |p| && Factors(w, u, f, h)
    ensures WeightedSum(p, w, k) == Value(p[..k], f) * (Pow(f, h - k) * u)
    decreases k
  {
    assert p[..k][..k - 1] == p[..k - 1] && p[..k][k - 1] == p[k - 1];
    if k == 1 {
      assert WeightedSum(p, w, 1) == p[0] * w[0];
      assert p[..1][..0] == [] && Value(p[..1], f) == p[0];
    } else {
      var v := Value(p[..k - 1], f);
      SumIsValue(p, w, u, f, h, k - 1);
      var e := Pow(f, h - k) * u;
      assert w[k - 1] == e && Pow(f, h - k + 1) == f * Pow(f, h - k);
      Associate(f, Pow(f, h - k), u);
      Distribute(v, f, p[k - 1], e);
    }
  }

  lemma Distribute(v: nat, f: nat, d: nat, e: nat)
    ensures v * (f * e) + d * e == (v * f + d) * e
  {
  }

  lemma {:induction false} PowPositive(f: nat, k: nat)
    requires f > 0
    ensures Pow(f, k) > 0
  {
    if k > 0 {
      PowPositive(f, k - 1);
      MulMonotone(1, f, Pow(f, k - 1));
    }
  }

  lemma QuotRemIs(n: nat, d: nat, q: nat, r: nat)
    requires n == q * d + r && r < d
    ensures Quot(n, d) == q && Rem(n, d) == r
  {
    QuotRemUnique(q, d, r);
  }

  lemma ProductPositive(f: nat, e: nat)
    requires f > 0 && e > 0
    ensures f * e > 0
  {
  }

  // Dividing by a product is dividing twice.
  lemma QuotQuot(n: nat, f: nat, e: nat, d: nat)
    requires f > 0 && e > 0 && d == f * e
    ensures d > 0 && Quot(n, d) == Quot(Quot(n, f), e)
    ensures Quot(Rem(n, d), f) == Rem(Quot(n, f), e) && Rem(Rem(n, d), f) == Rem(n, f)
  {
    ProductPositive(f, e);
    var q, r := Quot(n, f), Rem(n, f);
    var qq, qr := Quot(q, e), Rem(q, e);
    QuotRem(n, f);
    QuotRem(q, e);
    var m := qr * f + r;
    Distribute2(qq, e, qr, f, r);
    DigitsBound(qr, e, f, r);
    QuotRemIs(n, d, qq, m);
    QuotRemIs(m, f, qr, r);
  }

  lemma DigitsBound(q: nat, e: nat, f: nat, r: nat)
    requires q < e && r < f
    ensures q * f + r < f * e
  {
    MulMonotone(q + 1, e, f);
    assert (q + 1) * f == q * f + f;
  }

  lemma Distribute2(qq: nat, e: nat, qr: nat, f: nat, r: nat)
    ensures (qq * e + qr) * f + r == qq * (f * e) + (qr * f + r)
  {
  }

  // The same factors in unsigned 64-bit arithmetic.
  ghost predicate Wrapped(w: seq<nat>, u: nat, f: nat, h: nat) {
    h <= |w| && forall i | 0 <= i < h :: w[i] == Pow(f, h - 1 - i) * u % TWO_64
  }

  ghost function Weights(u: nat, f: nat, h: nat): (w: seq<nat>)
    ensures |w| == h && Factors(w, u, f, h)
  {
    seq(h, i requires 0 <= i < h => Pow(f, h - 1 - i) * u)
  }

  lemma {:induction false} PowMonotone(f: nat, i: nat, j: nat)
    requires f > 0 && i <= j
    ensures Pow(f, i) <= Pow(f, j)
    decreases j
  {
    if i < j {
      PowMonotone(f, i, j - 1);
      MulMonotone(1, f, Pow(f, j - 1));
    }
  }

  // If the largest factor fits into 64 bits, none of them wraps around.
  lemma WrappedFits(w: seq<nat>, u: nat, f: nat, h: nat)
    requires Wrapped(w, u, f, h) && f > 0 && h > 0 && Pow(f, h - 1) * u < TWO_64
    ensures Factors(w, u, f, h)
  {
    hide Pow;
    forall i | 0 <= i < h ensures w[i] == Pow(f, h - 1 - i) * u {
      PowMonotone(f, h - 1 - i, h - 1);
      MulMonotone(Pow(f, h - 1 - i), Pow(f, h - 1), u);
    }
  }

  // Wrapping around at every step is wrapping around once.
  lemma WrapShift(x: int, k: int)
    ensures (x + k * TWO_64) % TWO_64 == x % TWO_64
  {
  }

  lemma WrapFactor(a: nat, q: nat, b: nat)
    ensures (a + q * TWO_64) * b == a * b + (q * b) * TWO_64
  {
  }

  lemma WrapProduct(a: nat, b: nat)
    ensures (a % TWO_64) * b % TWO_64 == a * b % TWO_64
  {
    var q, r := a / TWO_64, a % TWO_64;
    WrapFactor(r, q, b);
    WrapShift(r * b, q * b);
  }

  lemma WrapSum(s: nat, d: nat, e: nat)
    ensures (s % TWO_64 + d * (e % TWO_64)) % TWO_64 == (s + d * e) % TWO_64
  {
    var qs, qe, r := s / TWO_64, e / TWO_64, e % TWO_64;
    WrapFactor(r, qe, d);
    var x, y := d * r, d * e;
    assert y == x + (qe * d) * TWO_64;
    WrapShift(s % TWO_64 + x, qs + qe * d);
  }

  lemma WrapDifference(a: nat, b: nat)
    ensures (a - b % TWO_64) % TWO_64 == (a - b) % TWO_64
  {
    WrapShift(a - b, b / TWO_64);
  }

  // Peeling a digit off the front by division, as the conversion loops do, leaves the path of the rest.
  lemma {:induction false} PeelDigit(n: nat, f: nat, k: nat)
    requires f > 0 && k > 1
    ensures Pow(f, k - 1) > 0
    ensures Digits(n, f, k)[0] == Quot(n, Pow(f, k - 1))
    ensures Digits(n, f, k)[1..] == Digits(Rem(n, Pow(f, k - 1)), f, k - 1)
    decreases k
  {
    PowPositive(f, k - 1);
    if k == 2 {
      assert Pow(f, 1) == f * Pow(f, 0) == f;
    } else {
      var q, e := Quot(n, f), Pow(f, k - 2);
      PowPositive(f, k - 2);
      PeelDigit(q, f, k - 1);
      QuotQuot(n, f, e, Pow(f, k - 1));
      assert Pow(f, k - 1) == f * e;
      assert Digits(n, f, k)[1..] == Digits(q, f, k - 1)[1..] + [Rem(n, f)];
    }
  }

  // The same where the last level counts units of u.
  lemma PeelByteDigit(n: nat, u: nat, f: nat, k: nat, factor: nat)
    requires u > 0 && f > 0 && k > 0 && factor == Pow(f, k - 1) * u
    ensures factor > 0 && Rem(n % factor, u) == Rem(n, u)
    ensures Digits(Quot(n, u), f, k)[0] == n / factor
    ensures Digits(Quot(n, u), f, k)[1..] == Digits(Quot(n % factor, u), f, k - 1)
    ensures k == 1 ==> n % factor < u
  {
    var q := Quot(n, u);
    PowPositive(f, k - 1);
    QuotQuot(n, u, Pow(f, k - 1), factor);
    DivIsQuot(n, factor);
    QuotRem(n, factor);
    if k == 1 {
      PowZero(f);
      QuotRemUnique(q, 1, 0);
    } else {
      PeelDigit(q, f, k);
    }
  }

  lemma {:induction false} SmallQuot(n: nat)
    ensures Quot(n, 1) == n
  {
    if n > 0 {
      SmallQuot(n - 1);
    }
  }

  // h digits of the path are done, `rest` is what is left to convert.
  ghost predicate Peeling(n: nat, u: nat, f: nat, height: nat, factor: seq<nat>, mp: seq<nat>, h: nat, rest: nat)
    requires u > 0 && f > 0
  {
    && Factors(factor, u, f, height) && h <= height <= |mp| && Rem(rest, u) == Rem(n, u)
    && (if h < height then mp[..h] + Digits(Quot(rest, u), f, height - h) == Digits(Quot(n, u), f, height)
        else mp[..h] == Digits(Quot(n, u), f, height) && rest < u)
  }

  lemma PeelStart(n: nat, u: nat, f: nat, height: nat, factor: seq<nat>, mp: seq<nat>)
    requires u > 0 && f > 0 && Factors(factor, u, f, height) && 0 < height <= |mp|
    ensures Peeling(n, u, f, height, factor, mp, 0, n)
  {
    assert mp[..0] + Digits(Quot(n, u), f, height) == Digits(Quot(n, u), f, height);
  }

  lemma PeelStep(n: nat, u: nat, f: nat, height: nat, factor: seq<nat>, mp: seq<nat>, h: nat, rest: nat)
    requires u > 0 && f > 0 && Peeling(n, u, f, height, factor, mp, h, rest) && h < height
    ensures h < |factor| && factor[h] > 0
    ensures Peeling(n, u, f, height, factor, mp[..h] + [rest / factor[h]] + mp[h + 1..], h + 1, rest % factor[h])
  {
    hide Pow, Quot, Rem;
    PeelByteDigit(rest, u, f, height - h, factor[h]);
    var mp' := mp[..h] + [rest / factor[h]] + mp[h + 1..];
    var d := Digits(Quot(rest, u), f, height - h);
    assert d == [d[0]] + d[1..];
    assert mp'[..h + 1] == mp[..h] + [d[0]];
    NoDigits(Quot(rest % factor[h], u), f);
    hide Digits;
    assert mp'[..h + 1] + d[1..] == mp[..h] + d;
  }

  lemma PeelEnd(n: nat, u: nat, f: nat, height: nat, factor: seq<nat>, mp: seq<nat>, rest: nat)
    requires u > 0 && f > 0 && Peeling(n, u, f, height, factor, mp, height, rest)
    ensures mp[..height] == Digits(Quot(n, u), f, height) && rest == Rem(n, u)
  {
  }

  lemma NoDigits(n: nat, f: nat)
    requires f > 0
    ensures Digits(n, f, 0) == []
  {
  }

  // One carry step keeps the value.
  lemma {:induction false} CarryValue(p: seq<nat>, f: nat, h: nat)
    requires 0 < h < |p| && p[h] == f
    ensures Value(p[h := 0][h - 1 := p[h - 1] + 1], f) == Value(p, f)
    decreases |p|
  {
    var p' := p[h := 0][h - 1 := p[h - 1] + 1];
    var q, q' := p[..|p| - 1], p'[..|p| - 1];
    if h == |p| - 1 {
      assert q' == q[h - 1 := q[h - 1] + 1];
      assert q'[..h - 1] == q[..h - 1];
      assert Value(q', f) == Value(q, f) + 1;
      assert (Value(q, f) + 1) * f == Value(q, f) * f + f;
    } else {
      assert q' == q[h := 0][h - 1 := q[h - 1] + 1];
      CarryValue(q, f, h);
    }
  }

  // ... and so does adding to the last digit.
  lemma ValueBump(p: seq<nat>, f: nat, d: nat)
    requires |p| > 0
    ensures Value(p[|p| - 1 := d], f) + p[|p| - 1] == Value(p, f) + d
  {
    assert p[|p| - 1 := d][..|p| - 1] == p[..|p| - 1];
  }
}
