/** The Goertzel filter of hw1/src/goertzel.c over exact reals, against the Fourier sum it stands for. */
module Goertzel {

  // ---------------------------------------------------------------------------
  // Complex numbers
  // ---------------------------------------------------------------------------

  datatype Complex = Complex(re: real, im: real) {
    function Plus(b: Complex): Complex {
      Complex(re + b.re, im + b.im)
    }

    function Times(b: Complex): Complex {
      Complex(re * b.re - im * b.im, re * b.im + im * b.re)
    }

    function Conjugate(): Complex {
      Complex(re, -im)
    }

    function Norm2(): real {
      re * re + im * im
    }
  }

  const ZERO := Complex(0.0, 0.0)
  const ONE := Complex(1.0, 0.0)

  function Real(x: real): Complex {
    Complex(x, 0.0)
  }

  function Power(w: Complex, n: nat): Complex {
    if n == 0 then ONE else w.Times(Power(w, n - 1))
  }

  lemma TimesAssociates(a: Complex, b: Complex, c: Complex)
    ensures a.Times(b).Times(c) == a.Times(b.Times(c))
  {
    assert (a.re * b.re - a.im * b.im) * c.re == a.re * (b.re * c.re) - a.im * (b.im * c.re);
    assert (a.re * b.im + a.im * b.re) * c.im == a.re * (b.im * c.im) + a.im * (b.re * c.im);
    assert (a.re * b.re - a.im * b.im) * c.im == a.re * (b.re * c.im) - a.im * (b.im * c.im);
    assert (a.re * b.im + a.im * b.re) * c.re == a.re * (b.im * c.re) + a.im * (b.re * c.re);
  }

  lemma TimesDistributes(a: Complex, b: Complex, c: Complex)
    ensures a.Times(b.Plus(c)) == a.Times(b).Plus(a.Times(c))
  {
  }

  lemma TimesCommutes(a: Complex, b: Complex)
    ensures a.Times(b) == b.Times(a)
  {
  }

  lemma NormOfProduct(a: Complex, b: Complex)
    ensures a.Times(b).Norm2() == a.Norm2() * b.Norm2()
  {
    var p, q, r, s := a.re * b.re, a.im * b.im, a.re * b.im, a.im * b.re;
    assert (p - q) * (p - q) + (r + s) * (r + s) == p * p + q * q + r * r + s * s + 2.0 * (r * s - p * q);
    assert r * s == p * q by {
      assert a.re * b.im * (a.im * b.re) == a.re * b.re * (a.im * b.im);
    }
    assert p * p == a.re * a.re * (b.re * b.re);
    assert q * q == a.im * a.im * (b.im * b.im);
    assert r * r == a.re * a.re * (b.im * b.im);
    assert s * s == a.im * a.im * (b.re * b.re);
  }

  lemma {:induction false} PowerOnCircle(w: Complex, n: nat)
    requires w.Norm2() == 1.0
    ensures Power(w, n).Norm2() == 1.0
  {
    if n > 0 {
      PowerOnCircle(w, n - 1);
      NormOfProduct(w, Power(w, n - 1));
    }
  }

  lemma NormOfConjugate(a: Complex, b: Complex)
    requires a.re == b.re && a.im == -b.im
    ensures a.Norm2() == b.Norm2()
  {
  }

  /** The conjugate of a number on the unit circle is its inverse. */
  lemma ConjugateInverts(w: Complex)
    requires w.Norm2() == 1.0
    ensures w.Times(w.Conjugate()) == ONE
  {
  }

  // ---------------------------------------------------------------------------
  // The Fourier sum and the filter
  // ---------------------------------------------------------------------------

  /** The sum of x[n] times w to the n. */
  function Fourier(x: seq<real>, w: Complex): Complex {
    if x == [] then ZERO
    else Fourier(x[..|x| - 1], w).Plus(Real(x[|x| - 1]).Times(Power(w, |x| - 1)))
  }

  /** The same sum read from the other end: of x[n] times v to the |x| - 1 - n. */
  function Horner(x: seq<real>, v: Complex): Complex {
    if x == [] then ZERO
    else v.Times(Horner(x[..|x| - 1], v)).Plus(Real(x[|x| - 1]))
  }

  /** Turning the one sum by a power of w gives the other. */
  lemma {:induction false} HornerIsFourier(x: seq<real>, w: Complex)
    requires x != [] && w.Norm2() == 1.0
    ensures Power(w, |x| - 1).Times(Horner(x, w.Conjugate())) == Fourier(x, w)
  {
    var n := |x| - 1;
    var v := w.Conjugate();
    var y, last := x[..n], Real(x[n]);
    if n == 0 {
      assert y == [];
    } else {
      HornerIsFourier(y, w);
      var h, p := Horner(y, v), Power(w, n - 1);
      TurnBack(w, p, h);
      TimesDistributes(w.Times(p), v.Times(h), last);
      TimesCommutes(w.Times(p), last);
    }
  }

  lemma TurnBack(w: Complex, p: Complex, h: Complex)
    requires w.Norm2() == 1.0
    ensures w.Times(p).Times(w.Conjugate().Times(h)) == p.Times(h)
  {
    var v := w.Conjugate();
    TimesCommutes(w, p);
    TimesAssociates(p, w, v.Times(h));
    TimesAssociates(w, v, h);
    ConjugateInverts(w);
    assert ONE.Times(h) == h;
  }

  lemma NormsAgree(x: seq<real>, w: Complex)
    requires x != [] && w.Norm2() == 1.0
    ensures Horner(x, w.Conjugate()).Norm2() == Fourier(x, w).Norm2()
  {
    HornerIsFourier(x, w);
    PowerOnCircle(w, |x| - 1);
    NormOfProduct(Power(w, |x| - 1), Horner(x, w.Conjugate()));
  }

  /** What the two state variables know of the samples so far: the sum read from the other end is s1 - w s2. */
  ghost predicate Tracks(seen: seq<real>, w: Complex, s1: real, s2: real) {
    Horner(seen, w.Conjugate()) == Complex(s1 - w.re * s2, -(w.im * s2))
  }

  lemma StepTracks(seen: seq<real>, w: Complex, B: real, s1: real, s2: real, x: real)
    requires w.Norm2() == 1.0 && B == w.re * 2.0 && Tracks(seen, w, s1, s2)
    ensures Tracks(seen + [x], w, B * s1 + x - s2, s1)
  {
    assert (seen + [x])[..|seen|] == seen;
    CircleRe(w.re, w.im, s1, s2);
    CircleIm(w.re, w.im, s1, s2);
  }

  lemma CircleRe(c: real, d: real, s1: real, s2: real)
    requires c * c + d * d == 1.0
    ensures c * (s1 - c * s2) - -d * -(d * s2) == c * s1 - s2
  {
    assert c * (s1 - c * s2) == c * s1 - c * c * s2;
    assert -d * -(d * s2) == d * d * s2;
    assert (c * c + d * d) * s2 == c * c * s2 + d * d * s2;
  }

  lemma CircleIm(c: real, d: real, s1: real, s2: real)
    ensures c * -(d * s2) + -d * (s1 - c * s2) == -(d * s1)
  {
    assert -d * (s1 - c * s2) == -(d * s1) + d * (c * s2);
    assert c * -(d * s2) == -(d * (c * s2));
  }

  // ---------------------------------------------------------------------------
  // The filter object
  // ---------------------------------------------------------------------------

  const UINT32: int := 0x1_0000_0000

  datatype Strength = Finite(value: real) | NotFinite

  /** Dividing by a product of two 32-bit unsigned numbers; the product is a 32-bit number too. */
  function Scaled(norm2: real, N: nat): Strength {
    var square := N * N % UINT32;
    if square == 0 then NotFinite else Finite(2.0 * norm2 / square as real)
  }

  class Filter {
    const N: nat
    const c: real
    const s: real
    const B: real
    var s0: real
    var s1: real
    var s2: real
    ghost var seen: seq<real>

    /** The factor e to the minus jA. */
    ghost function W(): Complex {
      Complex(c, -s)
    }

    ghost predicate Valid()
      reads this
    {
      && 1 <= N < UINT32 && c * c + s * s == 1.0 && B == c * 2.0
      && Tracks(seen, W(), s1, s2)
    }

    /** goertzel_init, given the cosine and the sine of the angle A. */
    constructor (N: nat, c: real, s: real)
      requires 1 <= N < UINT32 && c * c + s * s == 1.0
      ensures Valid() && this.N == N && this.c == c && this.s == s && seen == []
    {
      this.N, this.c, this.s := N, c, s;
      B := c * 2.0;
      s0, s1, s2 := 0.0, 0.0, 0.0;
      seen := [];
    }

    /** goertzel_step */
    method Step(x: real)
      requires Valid()
      modifies this
      ensures Valid() && seen == old(seen) + [x]
    {
      hide Horner;
      s0 := B * s1 + x - s2;
      StepTracks(seen, W(), B, s1, s2, x);
      s2 := s1;
      s1 := s0;
      seen := seen + [x];
    }

    /** goertzel_strength: D is the factor e to the minus jA(N - 1). */
    method Measure(x: real) returns (r: Strength)
      requires Valid()
      modifies this`s0
      ensures Valid() && r == Scaled(Fourier(seen + [x], W()).Norm2(), N)
    {
      hide Tracks, Fourier, Power;
      var constantC := Complex(c, -1.0 * s);
      var constantD := Power(constantC, N - 1);
      s0 := B * s1 + x - s2;
      var yA := -1.0 * s1 * constantC.re + s0;
      var yB := s1 * constantC.im;
      var yC := constantD.re;
      var yD := constantD.im;
      var y := Complex(yA * yC - yB * yD, yA * yD + yB * yC);
      var sqrdMagY := y.re * y.re + y.im * y.im;
      var square := N * N % UINT32;
      assert constantC == W();
      MeasuredNorm(seen, W(), B, s1, s2, x, N - 1, Complex(yA, yB));
      assert y == Complex(yA, yB).Times(constantD);
      if square == 0 {
        return NotFinite;
      }
      r := Finite(2.0 * sqrdMagY / square as real);
    }
  }

  /** The intermediate value is the conjugate of the tracked sum, and turning it changes only its phase. */
  lemma MeasuredNorm(seen: seq<real>, w: Complex, B: real, s1: real, s2: real, x: real, n: nat, y: Complex)
    requires w.Norm2() == 1.0 && B == w.re * 2.0 && Tracks(seen, w, s1, s2)
    requires y == Complex(-1.0 * s1 * w.re + (B * s1 + x - s2), s1 * w.im)
    ensures y.Times(Power(w, n)).Norm2() == Fourier(seen + [x], w).Norm2()
  {
    hide Horner, Fourier, Power;
    StepTracks(seen, w, B, s1, s2, x);
    NormOfConjugate(y, Horner(seen + [x], w.Conjugate()));
    NormsAgree(seen + [x], w);
    PowerOnCircle(w, n);
    NormOfProduct(y, Power(w, n));
  }

  /** A whole block of samples: N - 1 steps and the final one. */
  method Block(x: seq<real>, c: real, s: real) returns (r: Strength)
    requires 1 <= |x| < UINT32 && c * c + s * s == 1.0
    ensures r == Scaled(Fourier(x, Complex(c, -s)).Norm2(), |x|)
  {
    hide Tracks, Fourier;
    var g := new Filter(|x|, c, s);
    var last := |x| - 1;
    for i := 0 to last
      invariant g.Valid() && g.N == |x| && g.c == c && g.s == s && g.seen == x[..i]
    {
      g.Step(x[i]);
      assert x[..i + 1] == x[..i] + [x[i]];
    }
    assert x == x[..last] + [x[last]];
    r := g.Measure(x[last]);
  }

  // ---------------------------------------------------------------------------
  // When the strength is the one promised
  // ---------------------------------------------------------------------------

  function Promised(norm2: real, N: nat): Strength
    requires N >= 1
  {
    Finite(2.0 * norm2 / (N * N) as real)
  }

  lemma SquareFits(N: nat)
    ensures N < 65536 <==> N * N < UINT32
  {
    if N >= 65536 {
      IntProductsOrdered(65536, N, 65536, N);
    } else {
      IntProductsOrdered(N, 65535, N, 65535);
    }
  }

  lemma IntProductsOrdered(a: nat, p: nat, b: nat, q: nat)
    requires a <= p && b <= q
    ensures a * b <= p * q
  {
    assert a * b <= p * b;
    assert p * b <= p * q;
  }

  /**
   * The answer is right exactly up to 65535 samples, or beyond that if the Fourier sum is zero and the wrapped
   * square is not.
   */
  lemma StrengthRightIff(x: seq<real>, w: Complex)
    requires 1 <= |x| < UINT32
    ensures Scaled(Fourier(x, w).Norm2(), |x|) == Promised(Fourier(x, w).Norm2(), |x|) <==>
            |x| < 65536 || (Fourier(x, w).Norm2() == 0.0 && |x| * |x| % UINT32 != 0)
  {
    NormNotNegative(Fourier(x, w));
    RightIff(Fourier(x, w).Norm2(), |x|);
  }

  lemma RightIff(norm2: real, N: nat)
    requires N >= 1 && norm2 >= 0.0
    ensures Scaled(norm2, N) == Promised(norm2, N) <==> N < 65536 || (norm2 == 0.0 && N * N % UINT32 != 0)
  {
    SquareFits(N);
    SquareAsReal(N);
    var square := N * N;
    var wrapped := square % UINT32;
    if N >= 65536 && wrapped != 0 {
      assert wrapped < square;
      if norm2 > 0.0 {
        QuotientsDiffer(2.0 * norm2, wrapped as real, square as real);
      } else {
        ZeroQuotients(wrapped as real, square as real);
      }
    }
  }

  lemma ZeroQuotients(b: real, d: real)
    requires b > 0.0 && d > 0.0
    ensures 0.0 / b == 0.0 / d
  {
  }

  /** Block lengths on which it is right for every signal: exactly those below 65536. */
  lemma LengthRightIff(N: nat, w: Complex)
    requires 1 <= N < UINT32
    ensures (forall x: seq<real> | |x| == N :: Scaled(Fourier(x, w).Norm2(), N) == Promised(Fourier(x, w).Norm2(), N))
            <==> N < 65536
  {
    if N < 65536 {
      forall x: seq<real> | |x| == N
        ensures Scaled(Fourier(x, w).Norm2(), N) == Promised(Fourier(x, w).Norm2(), N)
      {
        StrengthRightIff(x, w);
      }
    } else {
      var x := [1.0] + seq(N - 1, _ => 0.0);
      ImpulseHasStrength(N - 1, w);
      StrengthRightIff(x, w);
    }
  }

  lemma QuotientsDiffer(a: real, b: real, d: real)
    requires a > 0.0 && 0.0 < b < d
    ensures a / b > a / d
  {
    var q, r := a / b, a / d;
    assert q * b == a && r * d == a;
    ProductPositive(r, d);
    ScaleStrictly(b, d, r);
    Cancel(r, q, b);
  }

  lemma ProductPositive(a: real, b: real)
    requires a * b > 0.0 && b > 0.0
    ensures a > 0.0
  {
  }

  lemma ScaleStrictly(a: real, b: real, c: real)
    requires a < b && c > 0.0
    ensures a * c < b * c
  {
  }

  lemma Scale(a: real, b: real, c: real)
    requires a <= b && c >= 0.0
    ensures a * c <= b * c
  {
  }

  lemma Cancel(a: real, b: real, c: real)
    requires a * c < b * c && c > 0.0
    ensures a < b
  {
    if a >= b {
      Scale(b, a, c);
    }
  }

  /** Some signal of every length has a strength. */
  lemma {:induction false} ImpulseHasStrength(n: nat, w: Complex)
    ensures Fourier([1.0] + seq(n, _ => 0.0), w) == ONE
  {
    var x := [1.0] + seq(n, _ => 0.0);
    if n == 0 {
      assert x[..0] == [];
    } else {
      assert x[..|x| - 1] == [1.0] + seq(n - 1, _ => 0.0);
      ImpulseHasStrength(n - 1, w);
    }
  }

  // ---------------------------------------------------------------------------
  // The strength is bounded
  // ---------------------------------------------------------------------------

  /** The triangle inequality without square roots. */
  lemma NormOfSum(a: Complex, b: Complex, p: real, q: real)
    requires p >= 0.0 && q >= 0.0 && a.Norm2() <= p * p && b.Norm2() <= q * q
    ensures a.Plus(b).Norm2() <= (p + q) * (p + q)
  {
    var dot := Dot(a, b);
    DotBounded(a, b, p, q);
    SumSquared(a.re, b.re);
    SumSquared(a.im, b.im);
    SumSquared(p, q);
  }

  function Dot(a: Complex, b: Complex): real {
    a.re * b.re + a.im * b.im
  }

  lemma SumSquared(a: real, b: real)
    ensures (a + b) * (a + b) == a * a + b * b + 2.0 * (a * b)
  {
  }

  lemma DotBounded(a: Complex, b: Complex, p: real, q: real)
    requires p >= 0.0 && q >= 0.0 && a.Norm2() <= p * p && b.Norm2() <= q * q
    ensures Dot(a, b) <= p * q
  {
    var t := a.Times(b.Conjugate());
    NormOfProduct(a, b.Conjugate());
    NormNotNegative(a);
    NormNotNegative(b);
    assert b.Conjugate().Norm2() == b.Norm2();
    assert t.re == Dot(a, b);
    SquareNotNegative(t.im);
    ProductsOrdered(a.Norm2(), p * p, b.Norm2(), q * q);
    SquareOfProduct(p, q);
    hide *;
    RootsOrdered(Dot(a, b), p * q);
  }

  lemma NormNotNegative(a: Complex)
    ensures a.Norm2() >= 0.0
  {
    SquareNotNegative(a.re);
    SquareNotNegative(a.im);
  }

  lemma SquareNotNegative(a: real)
    ensures a * a >= 0.0
  {
  }

  lemma SquareOfProduct(a: real, b: real)
    ensures (a * b) * (a * b) == (a * a) * (b * b)
  {
  }

  lemma ProductsOrdered(a: real, p: real, b: real, q: real)
    requires 0.0 <= a <= p && 0.0 <= b <= q
    ensures a * b <= p * q
  {
    Scale(a, p, b);
    Scale(b, q, p);
  }

  lemma RootsOrdered(a: real, b: real)
    requires b >= 0.0 && a * a <= b * b
    ensures a <= b
  {
    if a > b {
      SquaresOrdered(b, a - b);
    }
  }

  lemma SquaresOrdered(a: real, d: real)
    requires a >= 0.0 && d > 0.0
    ensures a * a < (a + d) * (a + d)
  {
    SumSquared(a, d);
    Scale(0.0, a, d);
    ScaleStrictly(0.0, d, d);
  }

  ghost predicate Bounded(x: seq<real>, M: real) {
    forall i | 0 <= i < |x| :: -M <= x[i] <= M
  }

  lemma {:induction false} FourierBounded(x: seq<real>, w: Complex, M: real)
    requires w.Norm2() == 1.0 && M >= 0.0 && Bounded(x, M)
    ensures Fourier(x, w).Norm2() <= (|x| as real * M) * (|x| as real * M)
  {
    if x == [] {
      SquareNotNegative(|x| as real * M);
    } else {
      var n := |x| - 1;
      FourierBounded(x[..n], w, M);
      TermOfSum(x[n], w, n, M);
      var f, t := Fourier(x[..n], w), Real(x[n]).Times(Power(w, n));
      assert Fourier(x, w) == f.Plus(t) && |x| == n + 1;
      hide *;
      BoundMore(f, t, n, M);
    }
  }

  lemma TermOfSum(a: real, w: Complex, n: nat, M: real)
    requires w.Norm2() == 1.0 && -M <= a <= M
    ensures Real(a).Times(Power(w, n)).Norm2() <= M * M
  {
    PowerOnCircle(w, n);
    NormOfProduct(Real(a), Power(w, n));
    SquareBounded(a, M);
    TermBounded(Real(a).Norm2(), Power(w, n).Norm2());
  }

  lemma TermBounded(a: real, b: real)
    requires b == 1.0
    ensures a * b == a
  {
  }

  lemma BoundMore(f: Complex, t: Complex, n: nat, M: real)
    requires M >= 0.0 && f.Norm2() <= (n as real * M) * (n as real * M) && t.Norm2() <= M * M
    ensures f.Plus(t).Norm2() <= ((n + 1) as real * M) * ((n + 1) as real * M)
  {
    var p := n as real * M;
    assert p >= 0.0;
    NormOfSum(f, t, p, M);
    assert p + M == (n + 1) as real * M;
  }

  lemma SquareBounded(a: real, M: real)
    requires -M <= a <= M
    ensures a * a <= M * M
  {
    if a >= 0.0 {
      ProductsOrdered(a, M, a, M);
    } else {
      ProductsOrdered(-a, M, -a, M);
    }
  }

  /** No component of a signal within M has a strength over twice the square of M. */
  lemma StrengthBounded(x: seq<real>, w: Complex, M: real)
    requires 1 <= |x| < 65536 && w.Norm2() == 1.0 && M >= 0.0 && Bounded(x, M)
    ensures Scaled(Fourier(x, w).Norm2(), |x|).Finite?
    ensures 0.0 <= Scaled(Fourier(x, w).Norm2(), |x|).value <= 2.0 * (M * M)
  {
    hide *;
    NormNotNegative(Fourier(x, w));
    FourierBounded(x, w, M);
    ScaledBounded(Fourier(x, w).Norm2(), |x|, M);
  }

  lemma ScaledBounded(norm2: real, N: nat, M: real)
    requires 1 <= N < 65536 && 0.0 <= norm2 <= (N as real * M) * (N as real * M)
    ensures Scaled(norm2, N).Finite? && 0.0 <= Scaled(norm2, N).value <= 2.0 * (M * M)
  {
    SquareFits(N);
    SpreadBound(norm2, N, M);
    var square := N * N;
    assert square % UINT32 == square;
  }

  lemma SpreadBound(norm2: real, N: nat, M: real)
    requires N >= 1 && 0.0 <= norm2 <= (N as real * M) * (N as real * M)
    ensures N * N >= 1 && 0.0 <= 2.0 * norm2 / (N * N) as real <= 2.0 * (M * M)
  {
    SquareOfProduct(N as real, M);
    SquareAsReal(N);
    QuotientBounded(2.0 * norm2, (N * N) as real, 2.0 * (M * M));
  }

  lemma SquareAsReal(N: nat)
    ensures (N * N) as real == N as real * N as real
    ensures N >= 1 ==> N * N >= 1
  {
  }

  lemma QuotientBounded(a: real, d: real, b: real)
    requires d > 0.0 && 0.0 <= a <= d * b
    ensures 0.0 <= a / d <= b
  {
    var q := a / d;
    assert q * d == a;
    if q > b {
      ScaleStrictly(b, q, d);
    }
    if q < 0.0 {
      ScaleStrictly(q, 0.0, d);
    }
  }

  // ---------------------------------------------------------------------------
  // The strength of a tone
  // ---------------------------------------------------------------------------

  /** N samples of the tone of amplitude and phase z that turns against w. */
  function Tone(z: Complex, w: Complex, N: nat): (x: seq<real>)
    ensures |x| == N && forall n | 0 <= n < N :: x[n] == z.Times(Power(w, n).Conjugate()).re
  {
    seq(N, n requires 0 <= n => z.Times(Power(w, n).Conjugate()).re)
  }

  /** The sum of the first N powers. */
  function Powers(s: Complex, N: nat): Complex {
    if N == 0 then ZERO else Powers(s, N - 1).Plus(Power(s, N - 1))
  }

  lemma {:induction false} PowerOfSquare(w: Complex, n: nat)
    ensures Power(w.Times(w), n) == Power(w, n).Times(Power(w, n))
  {
    if n > 0 {
      var p := Power(w, n - 1);
      PowerOfSquare(w, n - 1);
      Interchange(w, p);
      hide Complex.Times;
    }
  }

  lemma Interchange(w: Complex, p: Complex)
    ensures w.Times(w).Times(p.Times(p)) == w.Times(p).Times(w.Times(p))
  {
    TimesAssociates(w, w, p.Times(p));
    TimesAssociates(w, p, p);
    TimesAssociates(w, p, w.Times(p));
    TimesCommutes(p, w.Times(p));
    hide Complex.Times;
  }

  /** A sum of powers telescopes. */
  lemma {:induction false} PowersTelescope(s: Complex, N: nat)
    ensures s.Times(Powers(s, N)).Plus(ONE) == Powers(s, N).Plus(Power(s, N))
  {
    if N > 0 {
      var g, p := Powers(s, N - 1), Power(s, N - 1);
      PowersTelescope(s, N - 1);
      TimesDistributes(s, g, p);
      hide Complex.Times;
    }
  }

  /** Over full turns the powers cancel. */
  lemma PowersCancel(s: Complex, N: nat)
    requires Power(s, N) == ONE && s.Norm2() == 1.0 && s.re < 1.0
    ensures Powers(s, N) == ZERO
  {
    var g := Powers(s, N);
    PowersTelescope(s, N);
    hide Power, Powers;
    assert s.Times(g) == g;
    Unmoved(s, g);
  }

  lemma Unmoved(s: Complex, g: Complex)
    requires s.Times(g) == g && s.Norm2() == 1.0 && s.re < 1.0
    ensures g == ZERO
  {
    var d := Complex(s.re - 1.0, s.im);
    LessOne(s.re, g.re);
    LessOne(s.re, g.im);
    assert d.Times(g) == ZERO;
    hide Complex.Times;
    assert d.Norm2() == 2.0 - 2.0 * s.re by {
      LessOne(s.re, s.re - 1.0);
    }
    hide Complex.Norm2;
    Cancelled(d, g);
  }

  lemma LessOne(a: real, b: real)
    ensures (a - 1.0) * b == a * b - b
  {
  }

  /** There are no zero divisors. */
  lemma Cancelled(d: Complex, g: Complex)
    requires d.Times(g) == ZERO && d.Norm2() > 0.0
    ensures g == ZERO
  {
    var n := d.Norm2();
    ConjugateProduct(d);
    TimesAssociates(d.Conjugate(), d, g);
    assert d.Conjugate().Times(ZERO) == ZERO;
    RealTimes(n, g);
    hide Complex.Times, Complex.Norm2, Complex.Conjugate;
    if g.re != 0.0 {
      NoZeroProduct(n, g.re);
    }
    if g.im != 0.0 {
      NoZeroProduct(n, g.im);
    }
    assert g == Complex(g.re, g.im);
  }

  lemma ConjugateProduct(d: Complex)
    ensures d.Conjugate().Times(d) == Real(d.Norm2())
  {
    assert d.re * d.im == d.im * d.re;
  }

  lemma NoZeroProduct(a: real, b: real)
    requires a != 0.0 && b != 0.0
    ensures a * b != 0.0
  {
  }

  /** One sample of the tone, turned: half the amplitude, and half its mirror image turned twice as far. */
  lemma TurnedSample(z: Complex, p: Complex)
    requires p.Norm2() == 1.0
    ensures var t := Real(z.Times(p.Conjugate()).re).Times(p);
            t.Plus(t) == z.Plus(z.Conjugate().Times(p.Times(p)))
  {
    hide *;
    var k, s := z.Times(p.Conjugate()).re, p.Times(p);
    MirrorTimes(z, p);
    SquareParts(p);
    RealTimes(k, p);
    ConjugateTimes(z, s);
    OnCircle(p);
    TurnedRe(z.re, z.im, p.re, p.im, k, s.re, s.im);
    TurnedIm(z.re, z.im, p.re, p.im, k, s.re, s.im);
    AddParts(z, k * p.re, k * p.im, z.re * s.re + z.im * s.im, z.re * s.im - z.im * s.re);
  }

  lemma OnCircle(p: Complex)
    requires p.Norm2() == 1.0
    ensures p.re * p.re + p.im * p.im == 1.0
  {
  }

  lemma SquareParts(p: Complex)
    ensures p.Times(p).re == p.re * p.re - p.im * p.im && p.Times(p).im == p.re * p.im + p.im * p.re
  {
  }

  lemma AddParts(z: Complex, x: real, y: real, p: real, q: real)
    requires 2.0 * x == z.re + p && 2.0 * y == z.im + q
    ensures Complex(x, y).Plus(Complex(x, y)) == z.Plus(Complex(p, q))
  {
  }

  lemma MirrorTimes(z: Complex, p: Complex)
    ensures z.Times(p.Conjugate()).re == z.re * p.re + z.im * p.im
  {
  }

  lemma RealTimes(k: real, p: Complex)
    ensures Real(k).Times(p) == Complex(k * p.re, k * p.im)
  {
  }

  lemma ConjugateTimes(z: Complex, p: Complex)
    ensures z.Conjugate().Times(p) == Complex(z.re * p.re + z.im * p.im, z.re * p.im - z.im * p.re)
  {
  }

  lemma TurnedRe(a: real, b: real, c: real, d: real, k: real, e: real, f: real)
    requires c * c + d * d == 1.0 && k == a * c + b * d && e == c * c - d * d && f == c * d + d * c
    ensures 2.0 * (k * c) == a + (a * e + b * f)
  {
    SplitOne(a, c * c, d * d);
    assert k * c == a * (c * c) + b * (c * d);
    assert a * e == a * (c * c) - a * (d * d);
    assert b * f == b * (c * d) + b * (d * c);
  }

  lemma TurnedIm(a: real, b: real, c: real, d: real, k: real, e: real, f: real)
    requires c * c + d * d == 1.0 && k == a * c + b * d && e == c * c - d * d && f == c * d + d * c
    ensures 2.0 * (k * d) == b + (a * f - b * e)
  {
    SplitOne(b, c * c, d * d);
    assert k * d == a * (c * d) + b * (d * d);
    assert b * e == b * (c * c) - b * (d * d);
    assert a * f == a * (c * d) + a * (d * c);
  }

  lemma SplitOne(a: real, p: real, q: real)
    requires p + q == 1.0
    ensures a == a * p + a * q
  {
    assert a * (p + q) == a * p + a * q;
  }

  lemma {:induction false} TonesAddUp(z: Complex, w: Complex, N: nat)
    requires w.Norm2() == 1.0
    ensures var f := Fourier(Tone(z, w, N), w);
            f.Plus(f) == Real(N as real).Times(z).Plus(z.Conjugate().Times(Powers(w.Times(w), N)))
  {
    hide *;
    if N == 0 {
      NothingAddsUp(z, w);
    } else {
      var n: nat := N - 1;
      TonesAddUp(z, w, n);
      var p, s, conjugate := Power(w, n), w.Times(w), z.Conjugate();
      PowerOnCircle(w, n);
      PowerOfSquare(w, n);
      TurnedSample(z, p);
      TimesDistributes(conjugate, Powers(s, n), p.Times(p));
      OneMore(n, z);
      LastSample(z, w, n);
      LastPower(s, n);
      var f, t := Fourier(Tone(z, w, n), w), Real(z.Times(p.Conjugate()).re).Times(p);
      AddBoth(f, t, Real(n as real).Times(z), conjugate.Times(Powers(s, n)), z, conjugate.Times(p.Times(p)));
    }
  }

  lemma NothingAddsUp(z: Complex, w: Complex)
    ensures var f := Fourier(Tone(z, w, 0), w);
            f.Plus(f) == Real(0 as real).Times(z).Plus(z.Conjugate().Times(Powers(w.Times(w), 0)))
  {
  }

  lemma LastPower(s: Complex, n: nat)
    ensures Powers(s, n + 1) == Powers(s, n).Plus(Power(s, n))
  {
  }

  lemma LastSample(z: Complex, w: Complex, n: nat)
    ensures Fourier(Tone(z, w, n + 1), w) ==
            Fourier(Tone(z, w, n), w).Plus(Real(z.Times(Power(w, n).Conjugate()).re).Times(Power(w, n)))
  {
    var x := Tone(z, w, n + 1);
    assert x[..n] == Tone(z, w, n);
    hide Complex.Times, Complex.Conjugate, Power;
  }

  lemma AddBoth(f: Complex, t: Complex, a: Complex, b: Complex, z: Complex, c: Complex)
    requires f.Plus(f) == a.Plus(b) && t.Plus(t) == z.Plus(c)
    ensures f.Plus(t).Plus(f.Plus(t)) == a.Plus(z).Plus(b.Plus(c))
  {
  }

  lemma OneMore(n: nat, z: Complex)
    ensures Real((n + 1) as real).Times(z) == Real(n as real).Times(z).Plus(z)
  {
  }

  /**
   * A pure tone that makes a whole number of half turns in all, and no whole number of them from sample to sample, has
   * half the square of its amplitude as its strength, whatever its phase.
   */
  lemma ToneStrength(z: Complex, w: Complex, N: nat)
    requires 1 <= N < 65536 && w.Norm2() == 1.0 && Power(w.Times(w), N) == ONE && w.Times(w).re < 1.0
    ensures Scaled(Fourier(Tone(z, w, N), w).Norm2(), N) == Finite(z.Norm2() / 2.0)
  {
    hide Fourier, Tone, Power, Powers, Complex.Times, Complex.Plus, Complex.Norm2, Complex.Conjugate;
    var f := Fourier(Tone(z, w, N), w);
    TonesAddUp(z, w, N);
    NormOfProduct(w, w);
    PowersCancel(w.Times(w), N);
    AddNothing(Real(N as real).Times(z), z.Conjugate());
    HalfNorm(f, z, N as real);
    HalfScaled(f.Norm2(), z.Norm2(), N);
  }

  lemma HalfScaled(a: real, b: real, N: nat)
    requires 1 <= N < 65536 && 4.0 * a == N as real * N as real * b
    ensures Scaled(a, N) == Finite(b / 2.0)
  {
    SquareFits(N);
    SquareAsReal(N);
    HalfSquare(a, b, (N * N) as real);
  }

  lemma AddNothing(a: Complex, c: Complex)
    ensures a.Plus(c.Times(ZERO)) == a
  {
  }

  lemma HalfNorm(f: Complex, z: Complex, r: real)
    requires f.Plus(f) == Real(r).Times(z)
    ensures 4.0 * f.Norm2() == r * r * z.Norm2()
  {
    NormOfProduct(Real(r), z);
    assert f.Plus(f).Norm2() == 4.0 * f.Norm2();
  }

  lemma HalfSquare(a: real, b: real, d: real)
    requires 4.0 * a == d * b && d >= 1.0
    ensures 2.0 * a / d == b / 2.0
  {
    assert 2.0 * a == d * (b / 2.0);
  }
}
