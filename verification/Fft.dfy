/**
 Commutative rings, as values. Each law is a predicate on the elements it is about, so that a proof
 uses a law exactly where it names it.
 */
module Rings {
  datatype Ring<!T(!new)> = Ring(zero: T, one: T, add: (T, T) -> T, neg: T -> T, mul: (T, T) -> T) {
    ghost predicate AddAssoc(a: T, b: T, c: T) { add(add(a, b), c) == add(a, add(b, c)) }
    ghost predicate AddComm(a: T, b: T) { add(a, b) == add(b, a) }
    ghost predicate AddZero(a: T) { add(a, zero) == a }
    ghost predicate AddNeg(a: T) { add(a, neg(a)) == zero }
    ghost predicate MulAssoc(a: T, b: T, c: T) { mul(mul(a, b), c) == mul(a, mul(b, c)) }
    ghost predicate MulComm(a: T, b: T) { mul(a, b) == mul(b, a) }
    ghost predicate MulOne(a: T) { mul(a, one) == a }
    ghost predicate MulAdd(a: T, b: T, c: T) { mul(a, add(b, c)) == add(mul(a, b), mul(a, c)) }

    ghost predicate IsCommutative() {
      && (forall a, b, c :: AddAssoc(a, b, c))
      && (forall a, b :: AddComm(a, b))
      && (forall a :: AddZero(a))
      && (forall a :: AddNeg(a))
      && (forall a, b, c :: MulAssoc(a, b, c))
      && (forall a, b :: MulComm(a, b))
      && (forall a :: MulOne(a))
      && (forall a, b, c :: MulAdd(a, b, c))
    }

    function Sub(a: T, b: T): T {
      add(a, neg(b))
    }

    function Pow(a: T, n: nat): T {
      if n == 0 then one else mul(a, Pow(a, n - 1))
    }

    /** What adds to nothing is zero, and what cancels is the negation. */
    lemma Cancel(a: T, b: T)
      requires IsCommutative()
      ensures add(a, b) == a ==> b == zero
      ensures add(a, b) == zero ==> b == neg(a)
    {
      assert AddAssoc(neg(a), a, b) && AddComm(neg(a), a) && AddNeg(a) && AddComm(zero, b) && AddZero(b);
      assert AddComm(neg(a), zero) && AddZero(neg(a));
    }

    lemma MulZero(a: T)
      requires IsCommutative()
      ensures mul(a, zero) == zero
    {
      assert AddZero(zero) && MulAdd(a, zero, zero);
      Cancel(mul(a, zero), mul(a, zero));
    }

    lemma MulNeg(a: T, b: T)
      requires IsCommutative()
      ensures mul(neg(a), b) == neg(mul(a, b))
    {
      assert MulAdd(b, a, neg(a)) && AddNeg(a) && MulComm(b, a) && MulComm(b, neg(a));
      MulZero(b);
      Cancel(mul(a, b), mul(neg(a), b));
    }

    lemma NegSquare(a: T)
      requires IsCommutative()
      ensures mul(neg(a), neg(a)) == mul(a, a)
    {
      MulNeg(a, neg(a));
      MulNeg(a, a);
      assert MulComm(a, neg(a)) && AddNeg(mul(a, a)) && AddComm(mul(a, a), neg(mul(a, a)));
      Cancel(neg(mul(a, a)), mul(a, a));
    }

    lemma {:induction false} PowAdd(a: T, m: nat, n: nat)
      requires IsCommutative()
      ensures Pow(a, m + n) == mul(Pow(a, m), Pow(a, n))
    {
      if m == 0 {
        assert MulComm(one, Pow(a, n)) && MulOne(Pow(a, n));
      } else {
        PowAdd(a, m - 1, n);
        assert MulAssoc(a, Pow(a, m - 1), Pow(a, n));
      }
    }

    lemma {:induction false} PowSquare(a: T, n: nat)
      requires IsCommutative()
      ensures Pow(mul(a, a), n) == Pow(a, 2 * n)
    {
      if n != 0 {
        PowSquare(a, n - 1);
        assert MulAssoc(a, a, Pow(a, 2 * n - 2));
      }
    }

    lemma {:induction false} PowPow(a: T, m: nat, n: nat)
      requires IsCommutative()
      ensures Pow(Pow(a, m), n) == Pow(a, n * m)
    {
      if n != 0 {
        PowPow(a, m, n - 1);
        assert n * m == m + (n - 1) * m;
        PowAdd(a, m, (n - 1) * m);
      }
    }
  }
}

/** The recursive decimation-in-time transform of model/fft.py and the defining sum it computes. */
module Fft {
  import opened Rings
  import opened Wrappers

  /** The slice x[0::2]. */
  function Evens<T>(x: seq<T>): (r: seq<T>)
    ensures |r| == (|x| + 1) / 2 && forall i :: 0 <= i < |r| ==> r[i] == x[2 * i]
  {
    if |x| <= 1 then x else [x[0]] + Evens(x[2..])
  }

  /** The slice x[1::2]. */
  function Odds<T>(x: seq<T>): (r: seq<T>)
    ensures |r| == |x| / 2 && forall i :: 0 <= i < |r| ==> r[i] == x[2 * i + 1]
  {
    if |x| <= 1 then [] else [x[1]] + Odds(x[2..])
  }

  /** The outputs even[k] + w^k * odd[k] for k below `n`. */
  function Sums<T(!new)>(R: Ring<T>, even: seq<T>, odd: seq<T>, w: T, n: nat): (r: seq<T>)
    requires n <= |even| && n <= |odd|
    ensures |r| == n && forall k :: 0 <= k < n ==> r[k] == R.add(even[k], R.mul(R.Pow(w, k), odd[k]))
  {
    if n == 0 then []
    else Sums(R, even, odd, w, n - 1) + [R.add(even[n - 1], R.mul(R.Pow(w, n - 1), odd[n - 1]))]
  }

  /** The outputs even[k] - w^k * odd[k] for k below `n`. */
  function Differences<T(!new)>(R: Ring<T>, even: seq<T>, odd: seq<T>, w: T, n: nat): (r: seq<T>)
    requires n <= |even| && n <= |odd|
    ensures |r| == n && forall k :: 0 <= k < n ==> r[k] == R.Sub(even[k], R.mul(R.Pow(w, k), odd[k]))
  {
    if n == 0 then []
    else Differences(R, even, odd, w, n - 1) + [R.Sub(even[n - 1], R.mul(R.Pow(w, n - 1), odd[n - 1]))]
  }

  /** The two halves of the result; None is the IndexError of a half that came back short. */
  function Merge<T(!new)>(R: Ring<T>, even: Option<seq<T>>, odd: Option<seq<T>>, w: T, half: nat): (r: Option<seq<T>>)
    ensures r.Some? <==> even.Some? && odd.Some? && half <= |odd.value| && half <= |even.value|
    ensures r.Some? ==> |r.value| == 2 * half
  {
    if even.None? || odd.None? || |odd.value| < half || |even.value| < half then None
    else Some(Sums(R, even.value, odd.value, w, half) + Differences(R, even.value, odd.value, w, half))
  }

  /**
   `w` stands for exp(-2j*pi/N), so the twiddle factor of the source is Pow(w, k), and the half-length
   transforms use its square.
   */
  function Transform<T(!new)>(R: Ring<T>, x: seq<T>, w: T): (r: Option<seq<T>>)
    decreases |x|
  {
    if |x| <= 1 then Some(x)
    else
      var even := Transform(R, Evens(x), R.mul(w, w));
      var odd := Transform(R, Odds(x), R.mul(w, w));
      Merge(R, even, odd, w, |x| / 2)
  }

  predicate IsPowerOfTwo(n: nat) {
    n == 1 || (n > 1 && n % 2 == 0 && IsPowerOfTwo(n / 2))
  }

  /** The first `n` terms of the sum over j of x[j] * w^(j*k). */
  function DftSum<T(!new)>(R: Ring<T>, x: seq<T>, w: T, k: nat, n: nat): T
    requires n <= |x|
  {
    if n == 0 then R.zero else R.add(DftSum(R, x, w, k, n - 1), R.mul(x[n - 1], R.Pow(w, (n - 1) * k)))
  }

  /** The discrete Fourier transform, by definition. */
  function Dft<T(!new)>(R: Ring<T>, x: seq<T>, w: T, k: nat): T {
    DftSum(R, x, w, k, |x|)
  }

  /** w is an N-th root of unity of the kind the transform needs: w^(N/2) = -1. */
  ghost predicate IsRoot<T(!new)>(R: Ring<T>, w: T, n: nat) {
    n > 1 ==> R.Pow(w, n / 2) == R.neg(R.one)
  }

  /** The first `n` terms of the polynomial with coefficients `x`, at `z`. */
  function Poly<T(!new)>(R: Ring<T>, x: seq<T>, z: T, n: nat): T
    requires n <= |x|
  {
    if n == 0 then R.zero else R.add(Poly(R, x, z, n - 1), R.mul(x[n - 1], R.Pow(z, n - 1)))
  }

  /** The defining sum is the polynomial at w^k. */
  lemma {:induction false} PolyIsSum<T(!new)>(R: Ring<T>, x: seq<T>, w: T, k: nat, n: nat)
    requires R.IsCommutative() && n <= |x|
    ensures Poly(R, x, R.Pow(w, k), n) == DftSum(R, x, w, k, n)
  {
    if n != 0 {
      PolyIsSum(R, x, w, k, n - 1);
      R.PowPow(w, k, n - 1);
    }
  }

  /** (e + z*o) + a*p + b*(z*p) regroups to the next partial sum of each half. */
  lemma Regroup<T(!new)>(R: Ring<T>, e: T, z: T, o: T, a: T, b: T, p: T)
    requires R.IsCommutative()
    ensures R.add(R.add(R.add(e, R.mul(z, o)), R.mul(a, p)), R.mul(b, R.mul(z, p))) ==
            R.add(R.add(e, R.mul(a, p)), R.mul(z, R.add(o, R.mul(b, p))))
  {
    var zo, ap, zbp := R.mul(z, o), R.mul(a, p), R.mul(z, R.mul(b, p));
    assert R.mul(b, R.mul(z, p)) == zbp by {
      assert R.MulAssoc(b, z, p) && R.MulComm(b, z) && R.MulAssoc(z, b, p);
    }
    assert R.MulAdd(z, o, R.mul(b, p));
    assert R.AddAssoc(e, zo, ap) && R.AddComm(zo, ap) && R.AddAssoc(e, ap, zo);
    assert R.AddAssoc(R.add(e, ap), zo, zbp);
  }

  /** `e` and `o` hold the even and the odd elements of `x`. */
  ghost predicate AreHalves<T(!new)>(x: seq<T>, e: seq<T>, o: seq<T>) {
    |x| == 2 * |e| == 2 * |o| && forall i :: 0 <= i < |e| ==> e[i] == x[2 * i] && o[i] == x[2 * i + 1]
  }

  /** Decimation in time: p(z) = even(z^2) + z * odd(z^2). */
  lemma {:induction false} PolySplits<T(!new)>(R: Ring<T>, x: seq<T>, e: seq<T>, o: seq<T>, z: T, m: nat)
    requires R.IsCommutative() && AreHalves(x, e, o) && m <= |e|
    ensures Poly(R, x, z, 2 * m) == R.add(Poly(R, e, R.mul(z, z), m), R.mul(z, Poly(R, o, R.mul(z, z), m)))
  {
    var z2 := R.mul(z, z);
    if m == 0 {
      R.MulZero(z);
      assert R.AddZero(R.zero);
    } else {
      var n := m - 1;
      PolySplits(R, x, e, o, z, n);
      R.PowSquare(z, n);
      Regroup(R, Poly(R, e, z2, n), z, Poly(R, o, z2, n), e[n], o[n], R.Pow(z2, n));
      assert Poly(R, x, z, 2 * n + 1) == R.add(Poly(R, x, z, 2 * n), R.mul(x[2 * n], R.Pow(z, 2 * n)));
    }
  }

  /** At -z the odd part changes its sign. */
  lemma PolyAtNegation<T(!new)>(R: Ring<T>, x: seq<T>, e: seq<T>, o: seq<T>, z: T)
    requires R.IsCommutative() && AreHalves(x, e, o)
    ensures Poly(R, x, R.neg(z), |x|) ==
            R.Sub(Poly(R, e, R.mul(z, z), |e|), R.mul(z, Poly(R, o, R.mul(z, z), |o|)))
  {
    PolySplits(R, x, e, o, R.neg(z), |e|);
    R.NegSquare(z);
    R.MulNeg(z, Poly(R, o, R.mul(z, z), |o|));
  }

  /** Half a turn further on, the twiddle factor has the opposite sign. */
  lemma HalfTurn<T(!new)>(R: Ring<T>, w: T, half: nat, k: nat)
    requires R.IsCommutative() && R.Pow(w, half) == R.neg(R.one)
    ensures R.Pow(w, k + half) == R.neg(R.Pow(w, k))
  {
    var q := R.Pow(w, k);
    R.PowAdd(w, half, k);
    R.MulNeg(R.one, q);
    assert R.MulComm(R.one, q) && R.MulOne(q);
  }

  /** The two outputs that one pair of half-length outputs gives. */
  lemma Combine<T(!new)>(R: Ring<T>, x: seq<T>, e: seq<T>, o: seq<T>, w: T, j: nat)
    requires R.IsCommutative() && AreHalves(x, e, o) && R.Pow(w, |e|) == R.neg(R.one)
    ensures var z2 := R.Pow(R.mul(w, w), j);
            var t := R.mul(R.Pow(w, j), Poly(R, o, z2, |o|));
            && Poly(R, x, R.Pow(w, j), |x|) == R.add(Poly(R, e, z2, |e|), t)
            && Poly(R, x, R.Pow(w, j + |e|), |x|) == R.Sub(Poly(R, e, z2, |e|), t)
  {
    R.PowSquare(w, j);
    R.PowAdd(w, j, j);
    PolySplits(R, x, e, o, R.Pow(w, j), |e|);
    PolyAtNegation(R, x, e, o, R.Pow(w, j));
    HalfTurn(R, w, |e|, j);
  }

  /** The last stage is right if both half-length transforms are. */
  lemma CombineAll<T(!new)>(R: Ring<T>, x: seq<T>, e: seq<T>, o: seq<T>, w: T, even: seq<T>, odd: seq<T>)
    requires R.IsCommutative() && AreHalves(x, e, o) && R.Pow(w, |e|) == R.neg(R.one)
    requires AreOutputs(R, e, R.mul(w, w), even) && AreOutputs(R, o, R.mul(w, w), odd)
    ensures var y := Merge(R, Some(even), Some(odd), w, |e|);
            y.Some? && AreOutputs(R, x, w, y.value)
  {
    var y := Merge(R, Some(even), Some(odd), w, |e|).value;
    forall k | 0 <= k < |x|
      ensures y[k] == Poly(R, x, R.Pow(w, k), |x|)
    {
      Combine(R, x, e, o, w, if k < |e| then k else k - |e|);
    }
  }

  /** Output k is the polynomial at the k-th power of the root. */
  ghost predicate AreOutputs<T(!new)>(R: Ring<T>, x: seq<T>, w: T, y: seq<T>) {
    |y| == |x| && forall k :: 0 <= k < |x| ==> y[k] == Poly(R, x, R.Pow(w, k), |x|)
  }

  lemma TransformIsMerge<T(!new)>(R: Ring<T>, x: seq<T>, w: T)
    requires |x| > 1
    ensures var w2 := R.mul(w, w);
            Transform(R, x, w) == Merge(R, Transform(R, Evens(x), w2), Transform(R, Odds(x), w2), w, |x| / 2)
  {
  }

  /** The fast transform evaluates the polynomial at every power of the root. */
  lemma {:induction false} TransformIsPoly<T(!new)>(R: Ring<T>, x: seq<T>, w: T)
    requires R.IsCommutative() && IsPowerOfTwo(|x|) && IsRoot(R, w, |x|)
    ensures Transform(R, x, w).Some? && AreOutputs(R, x, w, Transform(R, x, w).value)
    decreases |x|
  {
    if |x| == 1 {
      assert Poly(R, x, R.one, 1) == R.add(R.zero, R.mul(x[0], R.one));
      assert R.MulOne(x[0]) && R.AddComm(R.zero, x[0]) && R.AddZero(x[0]);
    } else {
      var w2 := R.mul(w, w);
      R.PowSquare(w, |x| / 4);
      TransformIsPoly(R, Evens(x), w2);
      TransformIsPoly(R, Odds(x), w2);
      var even, odd := Transform(R, Evens(x), w2), Transform(R, Odds(x), w2);
      CombineAll(R, x, Evens(x), Odds(x), w, even.value, odd.value);
      TransformIsMerge(R, x, w);
    }
  }

  /** The main theorem: for every power-of-two length the fast transform is the defining sum. */
  lemma TransformIsDft<T(!new)>(R: Ring<T>, x: seq<T>, w: T)
    requires R.IsCommutative() && IsPowerOfTwo(|x|) && IsRoot(R, w, |x|)
    ensures Transform(R, x, w).Some? && |Transform(R, x, w).value| == |x|
    ensures forall k :: 0 <= k < |x| ==> Transform(R, x, w).value[k] == Dft(R, x, w, k)
  {
    TransformIsPoly(R, x, w);
    forall k | 0 <= k < |x| ensures Transform(R, x, w).value[k] == Dft(R, x, w, k) {
      PolyIsSum(R, x, w, k, |x|);
    }
  }

  /** The length that a call on `n` elements returns; None if it raises. */
  function ResultLength(n: nat): (r: Option<nat>) {
    if n <= 1 then Some(n)
    else
      var even, odd := ResultLength((n + 1) / 2), ResultLength(n / 2);
      if even.Some? && odd.Some? && n / 2 <= even.value && n / 2 <= odd.value then Some(2 * (n / 2)) else None
  }

  lemma {:induction false} ResultLengthIff(n: nat)
    ensures ResultLength(n) == Some(n) <==> n == 0 || IsPowerOfTwo(n)
    ensures ResultLength(n).Some? ==> ResultLength(n).value <= n
  {
    if n > 1 {
      ResultLengthIff((n + 1) / 2);
      ResultLengthIff(n / 2);
    }
  }

  lemma {:induction false} TransformLength<T(!new)>(R: Ring<T>, x: seq<T>, w: T)
    ensures Transform(R, x, w).Some? <==> ResultLength(|x|).Some?
    ensures Transform(R, x, w).Some? ==> |Transform(R, x, w).value| == ResultLength(|x|).value
    decreases |x|
  {
    if |x| > 1 {
      TransformLength(R, Evens(x), R.mul(w, w));
      TransformLength(R, Odds(x), R.mul(w, w));
      TransformIsMerge(R, x, w);
    }
  }

  /** Exactly when the call succeeds with as many outputs as inputs: empty input or a power-of-two length. */
  lemma FullLengthIff<T(!new)>(R: Ring<T>, x: seq<T>, w: T)
    ensures Transform(R, x, w).Some? && |Transform(R, x, w).value| == |x| <==> |x| == 0 || IsPowerOfTwo(|x|)
  {
    TransformLength(R, x, w);
    ResultLengthIff(|x|);
  }
}

/** Exact complex numbers, the ring the transform is meant for. */
module ComplexNumbers {
  import opened Rings
  import opened Wrappers
  import Fft

  datatype Complex = Complex(re: real, im: real)

  function Add(a: Complex, b: Complex): Complex { Complex(a.re + b.re, a.im + b.im) }
  function Neg(a: Complex): Complex { Complex(-a.re, -a.im) }
  function Mul(a: Complex, b: Complex): Complex {
    Complex(a.re * b.re - a.im * b.im, a.re * b.im + a.im * b.re)
  }

  const RING: Ring<Complex> := Ring(Complex(0.0, 0.0), Complex(1.0, 0.0), Add, Neg, Mul)

  lemma ComplexIsCommutative()
    ensures RING.IsCommutative()
  {
    forall a, b, c ensures RING.MulAssoc(a, b, c) {
      MulAssoc(a, b, c);
    }
    forall a, b, c ensures RING.MulAdd(a, b, c) {
      assert Mul(a, Add(b, c)) == Add(Mul(a, b), Mul(a, c));
    }
  }

  lemma MulAssoc(a: Complex, b: Complex, c: Complex)
    ensures Mul(Mul(a, b), c) == Mul(a, Mul(b, c))
  {
  }

  /** The transform the source runs: its inputs and twiddle factors are complex numbers. */
  lemma ComplexTransformIsDft(x: seq<Complex>, w: Complex)
    requires Fft.IsPowerOfTwo(|x|) && (|x| > 1 ==> RING.Pow(w, |x| / 2) == Complex(-1.0, 0.0))
    ensures Fft.Transform(RING, x, w) == Some(seq(|x|, k requires 0 <= k => Fft.Dft(RING, x, w, k)))
  {
    ComplexIsCommutative();
    Fft.TransformIsDft(RING, x, w);
    assert Fft.Transform(RING, x, w).value == seq(|x|, k requires 0 <= k => Fft.Dft(RING, x, w, k));
  }
}
