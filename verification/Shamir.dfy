/**
 Shamir's secret sharing over GF(2^8): `Split` evaluates one random polynomial
 per secret byte, `Combine` interpolates at zero. The main result is that any
 list of at least `t` distinct shares of one split gives the secret back.
 */
module Shamir {
  import opened Outcomes
  import opened GaloisField
  import opened Numbers

  type Bytes = seq<Byte>

  // ---------------------------------------------------------------- polynomials

  /** The polynomial with these coefficients, lowest first. */
  function Eval(coeffs: Bytes, x: Byte): Byte {
    if coeffs == [] then ZERO else Add(coeffs[0], Mul(x, Eval(coeffs[1..], x)))
  }

  method EvalPoly(coeffs: Bytes, x: Byte) returns (y: Byte)
    ensures y == Eval(coeffs, x)
  {
    hide Mul, Add;
    y := ZERO;
    var i := |coeffs|;
    while i > 0
      invariant 0 <= i <= |coeffs| && y == Eval(coeffs[i..], x)
    {
      i := i - 1;
      assert coeffs[i..][1..] == coeffs[i + 1..];
      MulCommutes(y, x);
      AddCommutes(Mul(y, x), coeffs[i]);
      var product := GfMul(y, x);
      y := Add(product, coeffs[i]);
    }
    assert coeffs[0..] == coeffs;
  }

  lemma EvalAtZero(coeffs: Bytes)
    requires coeffs != []
    ensures Eval(coeffs, ZERO) == coeffs[0]
  {
    MulZero(Eval(coeffs[1..], ZERO));
    AddZero(coeffs[0]);
    hide Mul, Add;
  }

  /** Coefficients of `a + r * b`, padded to the longer one. */
  function AddScaled(a: Bytes, r: Byte, b: Bytes): (s: Bytes)
    requires |b| <= |a|
    ensures |s| == |a|
  {
    if b == [] then a else [Add(a[0], Mul(r, b[0]))] + AddScaled(a[1..], r, b[1..])
  }

  lemma {:induction false} EvalAddScaled(a: Bytes, r: Byte, b: Bytes, x: Byte)
    requires |b| <= |a|
    ensures Eval(AddScaled(a, r, b), x) == Add(Eval(a, x), Mul(r, Eval(b, x)))
    decreases |b|
  {
    hide Mul, Add;
    if b == [] {
      MulZero(r);
      AddZero(Eval(a, x));
    } else {
      var p, q := Eval(a[1..], x), Eval(b[1..], x);
      EvalAddScaled(a[1..], r, b[1..], x);
      assert AddScaled(a, r, b)[1..] == AddScaled(a[1..], r, b[1..]);
      ScaledStep(a[0], b[0], r, x, p, q);
    }
  }

  /** (a + r b) + x (p + r q) == (a + x p) + r (b + x q). */
  lemma ScaledStep(a: Byte, b: Byte, r: Byte, x: Byte, p: Byte, q: Byte)
    ensures Add(Add(a, Mul(r, b)), Mul(x, Add(p, Mul(r, q)))) == Add(Add(a, Mul(x, p)), Mul(r, Add(b, Mul(x, q))))
  {
    hide Mul, Add;
    MulDistributes(x, p, Mul(r, q));
    MulDistributes(r, b, Mul(x, q));
    MulAssociates(x, r, q);
    MulAssociates(r, x, q);
    MulCommutes(x, r);
    MiddleFour(a, Mul(r, b), Mul(x, p), Mul(x, Mul(r, q)));
  }

  /** The quotient of the polynomial by (x - r). */
  function Quotient(coeffs: Bytes, r: Byte): (q: Bytes)
    ensures |q| == if coeffs == [] then 0 else |coeffs| - 1
  {
    if |coeffs| <= 1 then [] else AddScaled(coeffs[1..], r, Quotient(coeffs[1..], r))
  }

  /** p(y) == p(r) + (y - r) q(y). */
  lemma {:induction false} Division(coeffs: Bytes, r: Byte, y: Byte)
    ensures Eval(coeffs, y) == Add(Eval(coeffs, r), Mul(Add(y, r), Eval(Quotient(coeffs, r), y)))
    decreases |coeffs|
  {
    hide Mul, Add;
    var d := Add(y, r);
    if coeffs == [] {
      MulZero(d);
      AddZero(ZERO);
    } else if |coeffs| == 1 {
      MulZero(d);
      MulZero(y);
      MulZero(r);
      AddZero(Add(coeffs[0], ZERO));
    } else {
      var tail := coeffs[1..];
      var q := Quotient(tail, r);
      Division(tail, r, y);
      EvalAddScaled(tail, r, q, y);
      DivisionStep(coeffs[0], y, r, Eval(tail, y), Eval(tail, r), Eval(q, y));
    }
  }

  /** From p(y) == p(r) + (y - r) q: c + y p(y) == (c + r p(r)) + (y - r)(p(y) + r q). */
  lemma DivisionStep(c: Byte, y: Byte, r: Byte, py: Byte, pr: Byte, q: Byte)
    requires py == Add(pr, Mul(Add(y, r), q))
    ensures Add(c, Mul(y, py)) == Add(Add(c, Mul(r, pr)), Mul(Add(y, r), Add(py, Mul(r, q))))
  {
    hide Mul, Add;
    var d := Add(y, r);
    MulDistributes(d, py, Mul(r, q));
    MulDistributes(py, y, r);
    MulAssociates(d, r, q);
    MulAssociates(r, d, q);
    MulCommutes(d, r);
    MulDistributes(r, pr, Mul(d, q));
    // Mul(d, py) == y py + r py, and r py == r pr + r d q
    var yp, rp, rpr, rdq := Mul(y, py), Mul(r, py), Mul(r, pr), Mul(r, Mul(d, q));
    assert Mul(d, Mul(r, q)) == rdq;
    Rearranged(c, yp, rp, rpr, rdq);
  }

  lemma Rearranged(c: Byte, yp: Byte, rp: Byte, rpr: Byte, rdq: Byte)
    requires rp == Add(rpr, rdq)
    ensures Add(c, yp) == Add(Add(c, rpr), Add(Add(yp, rp), rdq))
  {
    hide Add;
    AddAssociates(yp, rp, rdq);
    AddTwice(rpr, rdq);
    AddCommutes(yp, rpr);
    AddAssociates(c, rpr, Add(rpr, yp));
    AddTwice(rpr, yp);
  }

  // -------------------------------------------------------------- interpolation

  function Without(xs: Bytes, i: nat): Bytes
    requires i < |xs|
  {
    xs[..i] + xs[i + 1..]
  }

  /** The product of (at - y) over the list. */
  function Prod(ys: Bytes, at: Byte): Byte {
    if ys == [] then ONE else Mul(Prod(ys[..|ys| - 1], at), Add(at, ys[|ys| - 1]))
  }

  /** The i-th Lagrange basis polynomial at a point. */
  function Basis(xs: Bytes, at: Byte, i: nat): Byte
    requires i < |xs|
  {
    Div(Prod(Without(xs, i), at), Prod(Without(xs, i), xs[i]))
  }

  function Sum(xs: Bytes, ys: Bytes, at: Byte, n: nat): Byte
    requires n <= |xs| == |ys|
  {
    if n == 0 then ZERO else Add(Sum(xs, ys, at, n - 1), Mul(ys[n - 1], Basis(xs, at, n - 1)))
  }

  function Interpolate(xs: Bytes, ys: Bytes, at: Byte): Byte
    requires |xs| == |ys|
  {
    Sum(xs, ys, at, |xs|)
  }

  ghost predicate Distinct(xs: Bytes) {
    forall i, j :: 0 <= i < j < |xs| ==> xs[i] != xs[j]
  }

  /** Numerator and denominator of the i-th weight. */
  method WeightLoop(xs: Bytes, at: Byte, i: nat) returns (num: Byte, den: Byte)
    requires i < |xs|
    ensures num == Prod(Without(xs, i), at) && den == Prod(Without(xs, i), xs[i])
  {
    hide Mul, Add, Prod;
    num, den := ONE, ONE;
    EmptyProd(at);
    EmptyProd(xs[i]);
    ghost var done := [];
    for j := 0 to |xs|
      invariant done == if j <= i then xs[..j] else xs[..i] + xs[i + 1..j]
      invariant num == Prod(done, at) && den == Prod(done, xs[i])
    {
      if i != j {
        ProdSnoc(done, xs[j], at);
        ProdSnoc(done, xs[j], xs[i]);
        num := GfMul(num, Add(at, xs[j]));
        den := GfMul(den, Add(xs[i], xs[j]));
        done := done + [xs[j]];
      }
    }
    assert done == Without(xs, i);
  }

  lemma EmptyProd(at: Byte)
    ensures Prod([], at) == ONE
  {
  }

  method InterpolateLoop(xs: Bytes, ys: Bytes, at: Byte) returns (result: Byte)
    requires |xs| == |ys|
    ensures result == Interpolate(xs, ys, at)
  {
    hide Mul, Add, Div, Prod;
    result := ZERO;
    for i := 0 to |xs|
      invariant result == Sum(xs, ys, at, i)
    {
      var num, den := WeightLoop(xs, at, i);
      var weight := GfDiv(num, den);
      var term := GfMul(ys[i], weight);
      result := Add(result, term);
    }
  }

  lemma ProdSnoc(ys: Bytes, z: Byte, at: Byte)
    ensures Prod(ys + [z], at) == Mul(Prod(ys, at), Add(at, z))
  {
    hide Mul, Add;
    assert (ys + [z])[..|ys|] == ys;
  }

  lemma {:induction false} ProdCons(z: Byte, ys: Bytes, at: Byte)
    ensures Prod([z] + ys, at) == Mul(Add(at, z), Prod(ys, at))
    decreases |ys|
  {
    hide Mul, Add;
    if ys == [] {
      assert [z] + ys == [] + [z];
      ProdSnoc([], z, at);
      MulCommutes(Add(at, z), ONE);
    } else {
      var n := |ys| - 1;
      ProdCons(z, ys[..n], at);
      assert [z] + ys == ([z] + ys[..n]) + [ys[n]];
      ProdSnoc([z] + ys[..n], ys[n], at);
      MulAssociates(Add(at, z), Prod(ys[..n], at), Add(at, ys[n]));
    }
  }

  lemma {:induction false} ProdNonZero(ys: Bytes, at: Byte)
    requires at !in ys
    ensures Prod(ys, at) != ZERO
  {
    hide Mul, Add;
    if ys == [] {
      assert ONE != ZERO;
    } else {
      var n := |ys| - 1;
      ProdNonZero(ys[..n], at);
      assert ys[n] in ys;
      AddCancels(at, ys[n]);
      MulNonZero(Prod(ys[..n], at), Add(at, ys[n]));
    }
  }

  lemma WithoutSelf(xs: Bytes, i: nat)
    requires Distinct(xs) && i < |xs|
    ensures xs[i] !in Without(xs, i)
  {
  }

  /** (d h) (p a) / (q d) == a (h (p / q)). */
  lemma FractionStep(a: Byte, d: Byte, h: Byte, p: Byte, q: Byte)
    requires d != ZERO && q != ZERO
    ensures Mul(Mul(d, h), Div(Mul(p, a), Mul(q, d))) == Mul(a, Mul(h, Div(p, q)))
  {
    hide Mul, Add, Div;
    var qd := Mul(q, d);
    MulNonZero(q, d);
    var left, right := Mul(Mul(d, h), Div(Mul(p, a), qd)), Mul(a, Mul(h, Div(p, q)));
    assert Mul(left, qd) == Mul(Mul(d, h), Mul(p, a)) by {
      MulAssociates(Mul(d, h), Div(Mul(p, a), qd), qd);
      DivMul(Mul(p, a), qd);
    }
    assert Mul(right, qd) == Mul(Mul(a, Mul(h, p)), d) by {
      var f := Div(p, q);
      MulAssociates(right, q, d);
      MulAssociates(a, Mul(h, f), q);
      MulAssociates(h, f, q);
      DivMul(p, q);
    }
    assert Mul(Mul(d, h), Mul(p, a)) == Mul(Mul(a, Mul(h, p)), d) by {
      MulAssociates(d, h, Mul(p, a));
      MulAssociates(h, p, a);
      MulCommutes(Mul(h, p), a);
      MulCommutes(d, Mul(a, Mul(h, p)));
    }
    MulCancels(left, right, qd);
  }

  // --------------------------------------------------------- linear in the values

  lemma {:induction false} SumAdds(xs: Bytes, ys: Bytes, us: Bytes, vs: Bytes, at: Byte, n: nat)
    requires n <= |xs| == |ys| == |us| == |vs|
    requires forall i :: 0 <= i < |xs| ==> ys[i] == Add(us[i], vs[i])
    ensures Sum(xs, ys, at, n) == Add(Sum(xs, us, at, n), Sum(xs, vs, at, n))
    decreases n
  {
    hide Mul, Add, Basis;
    if n == 0 {
      AddZero(ZERO);
    } else {
      SumAdds(xs, ys, us, vs, at, n - 1);
      var b := Basis(xs, at, n - 1);
      MulDistributes(b, us[n - 1], vs[n - 1]);
      MiddleFour(Sum(xs, us, at, n - 1), Sum(xs, vs, at, n - 1), Mul(us[n - 1], b), Mul(vs[n - 1], b));
    }
  }

  lemma {:induction false} SumScales(xs: Bytes, ys: Bytes, c: Byte, us: Bytes, at: Byte, n: nat)
    requires n <= |xs| == |ys| == |us|
    requires forall i :: 0 <= i < |xs| ==> ys[i] == Mul(c, us[i])
    ensures Sum(xs, ys, at, n) == Mul(c, Sum(xs, us, at, n))
    decreases n
  {
    hide Mul, Add, Basis;
    if n == 0 {
      MulZero(c);
    } else {
      SumScales(xs, ys, c, us, at, n - 1);
      var b := Basis(xs, at, n - 1);
      MulAssociates(c, us[n - 1], b);
      MulDistributes(c, Sum(xs, us, at, n - 1), Mul(us[n - 1], b));
    }
  }

  // ------------------------------------------------------------ removing one point

  lemma TermWithoutLast(xs: Bytes, y: Byte, h: Byte, at: Byte, i: nat)
    requires Distinct(xs) && i < |xs| - 1 && y == Mul(Add(xs[i], xs[|xs| - 1]), h)
    ensures Mul(y, Basis(xs, at, i)) == Mul(Add(at, xs[|xs| - 1]), Mul(h, Basis(xs[..|xs| - 1], at, i)))
  {
    hide Mul, Add, Div;
    var n := |xs| - 1;
    var z, front := xs[n], xs[..n];
    var w := Without(front, i);
    assert Without(xs, i) == w + [z];
    ProdSnoc(w, z, at);
    ProdSnoc(w, z, xs[i]);
    WithoutSelf(front, i);
    ProdNonZero(w, xs[i]);
    AddCancels(xs[i], z);
    FractionStep(Add(at, z), Add(xs[i], z), h, Prod(w, at), Prod(w, xs[i]));
  }

  lemma TermWithoutFirst(xs: Bytes, y: Byte, h: Byte, at: Byte, i: nat)
    requires Distinct(xs) && 0 < i < |xs| && y == Mul(Add(xs[i], xs[0]), h)
    ensures Mul(y, Basis(xs, at, i)) == Mul(Add(at, xs[0]), Mul(h, Basis(xs[1..], at, i - 1)))
  {
    hide Mul, Add, Div;
    var z, tail := xs[0], xs[1..];
    var w := Without(tail, i - 1);
    assert Without(xs, i) == [z] + w;
    ProdCons(z, w, at);
    ProdCons(z, w, xs[i]);
    MulCommutes(Add(at, z), Prod(w, at));
    MulCommutes(Add(xs[i], z), Prod(w, xs[i]));
    WithoutSelf(tail, i - 1);
    ProdNonZero(w, xs[i]);
    AddCancels(xs[i], z);
    FractionStep(Add(at, z), Add(xs[i], z), h, Prod(w, at), Prod(w, xs[i]));
  }

  lemma {:induction false} SumWithoutLast(xs: Bytes, ys: Bytes, hs: Bytes, at: Byte, n: nat)
    requires Distinct(xs) && |xs| == |ys| == |hs| + 1 && n <= |hs|
    requires forall i :: 0 <= i < |hs| ==> ys[i] == Mul(Add(xs[i], xs[|hs|]), hs[i])
    ensures Sum(xs, ys, at, n) == Mul(Add(at, xs[|hs|]), Sum(xs[..|hs|], hs, at, n))
    decreases n
  {
    hide Mul, Add, Basis;
    var a := Add(at, xs[|hs|]);
    if n == 0 {
      MulZero(a);
    } else {
      SumWithoutLast(xs, ys, hs, at, n - 1);
      TermWithoutLast(xs, ys[n - 1], hs[n - 1], at, n - 1);
      MulDistributes(a, Sum(xs[..|hs|], hs, at, n - 1), Mul(hs[n - 1], Basis(xs[..|hs|], at, n - 1)));
    }
  }

  lemma {:induction false} SumWithoutFirst(xs: Bytes, ys: Bytes, hs: Bytes, at: Byte, n: nat)
    requires Distinct(xs) && |xs| == |ys| == |hs| + 1 && n <= |hs| && ys[0] == ZERO
    requires forall i :: 0 < i < |xs| ==> ys[i] == Mul(Add(xs[i], xs[0]), hs[i - 1])
    ensures Sum(xs, ys, at, n + 1) == Mul(Add(at, xs[0]), Sum(xs[1..], hs, at, n))
    decreases n
  {
    hide Mul, Add, Basis;
    var a := Add(at, xs[0]);
    if n == 0 {
      MulZero(a);
      MulZero(Basis(xs, at, 0));
      AddZero(ZERO);
      assert Sum(xs, ys, at, 1) == Add(Sum(xs, ys, at, 0), Mul(ys[0], Basis(xs, at, 0)));
    } else {
      SumWithoutFirst(xs, ys, hs, at, n - 1);
      TermWithoutFirst(xs, ys[n], hs[n - 1], at, n);
      MulDistributes(a, Sum(xs[1..], hs, at, n - 1), Mul(hs[n - 1], Basis(xs[1..], at, n - 1)));
    }
  }

  // ----------------------------------------------------------------- main results

  function Repeat(c: Byte, n: nat): (s: Bytes)
    ensures |s| == n && forall i :: 0 <= i < n ==> s[i] == c
  {
    seq(n, _ => c)
  }

  /** Values that vanish at the last point and are (x - last) h elsewhere. */
  lemma InterpolateWithoutLast(xs: Bytes, ys: Bytes, hs: Bytes, at: Byte)
    requires Distinct(xs) && |xs| == |ys| == |hs| + 1 && ys[|hs|] == ZERO
    requires forall i :: 0 <= i < |hs| ==> ys[i] == Mul(Add(xs[i], xs[|hs|]), hs[i])
    ensures Interpolate(xs, ys, at) == Mul(Add(at, xs[|hs|]), Interpolate(xs[..|hs|], hs, at))
  {
    hide Mul, Add, Basis;
    var n := |hs|;
    SumWithoutLast(xs, ys, hs, at, n);
    MulZero(Basis(xs, at, n));
    AddZero(Sum(xs, ys, at, n));
  }

  /** The constant (first - last) is the difference of two lines through the points. */
  lemma SumOfGaps(xs: Bytes, first: Byte, last: Byte, toLast: Bytes, toFirst: Bytes, at: Byte)
    requires |xs| == |toLast| == |toFirst|
    requires forall i :: 0 <= i < |xs| ==> toLast[i] == Add(xs[i], last) && toFirst[i] == Add(xs[i], first)
    ensures Mul(Add(first, last), Interpolate(xs, Repeat(ONE, |xs|), at)) ==
            Add(Interpolate(xs, toLast, at), Interpolate(xs, toFirst, at))
  {
    hide Mul, Add, Basis, Sum;
    var gap := Add(first, last);
    var ones, gaps := Repeat(ONE, |xs|), Repeat(gap, |xs|);
    MulOne(gap);
    forall i | 0 <= i < |xs| ensures gaps[i] == Add(toLast[i], toFirst[i]) {
      GapAnywhere(xs[i], first, last);
    }
    SumAdds(xs, gaps, toLast, toFirst, at, |xs|);
    SumScales(xs, gaps, gap, ones, at, |xs|);
  }

  /** The constant 1 is interpolated to 1, however many points there are. */
  lemma {:induction false} InterpolateOne(xs: Bytes, at: Byte)
    requires Distinct(xs) && |xs| > 0
    ensures Interpolate(xs, Repeat(ONE, |xs|), at) == ONE
    decreases |xs|
  {
    hide Mul, Add, Interpolate;
    if |xs| == 1 {
      InterpolateOnePoint(xs, at);
    } else {
      var n := |xs| - 1;
      var first, last := xs[0], xs[n];
      var toLast := seq(|xs|, i requires 0 <= i < |xs| => Add(xs[i], last));
      var toFirst := seq(|xs|, i requires 0 <= i < |xs| => Add(xs[i], first));
      InterpolateOne(xs[..n], at);
      InterpolateOne(xs[1..], at);
      VanishAtLast(xs, toLast, at);
      VanishAtFirst(xs, toFirst, at);
      SumOfGaps(xs, first, last, toLast, toFirst, at);
      ScaledOne(Interpolate(xs, Repeat(ONE, |xs|), at), first, last, at);
    }
  }

  lemma ScaledOne(v: Byte, first: Byte, last: Byte, at: Byte)
    requires first != last && Mul(Add(first, last), v) == Add(Add(at, last), Add(at, first))
    ensures v == ONE
  {
    hide Mul, Add;
    var gap := Add(first, last);
    GapAnywhere(at, first, last);
    AddCancels(first, last);
    MulOne(gap);
    MulCommutes(gap, v);
    MulCancels(v, ONE, gap);
  }

  lemma GapAnywhere(x: Byte, first: Byte, last: Byte)
    ensures Add(first, last) == Add(Add(x, last), Add(x, first))
  {
    hide Add;
    AddCommutes(x, last);
    AddAssociates(last, x, Add(x, first));
    AddTwice(x, first);
    AddCommutes(first, last);
  }

  lemma InterpolateOnePoint(xs: Bytes, at: Byte)
    requires |xs| == 1
    ensures Interpolate(xs, Repeat(ONE, 1), at) == ONE
  {
    hide Mul, Add;
    var ones := Repeat(ONE, 1);
    assert Without(xs, 0) == [];
    assert Basis(xs, at, 0) == Div(ONE, ONE);
    assert ONE != ZERO;
    DivMul(ONE, ONE);
    MulOne(Div(ONE, ONE));
    assert Sum(xs, ones, at, 1) == Add(Sum(xs, ones, at, 0), Mul(ones[0], Basis(xs, at, 0)));
    AddZero(ONE);
  }

  lemma VanishAtLast(xs: Bytes, ys: Bytes, at: Byte)
    requires Distinct(xs) && |xs| == |ys| > 1
    requires forall i :: 0 <= i < |xs| ==> ys[i] == Add(xs[i], xs[|xs| - 1])
    requires Interpolate(xs[..|xs| - 1], Repeat(ONE, |xs| - 1), at) == ONE
    ensures Interpolate(xs, ys, at) == Add(at, xs[|xs| - 1])
  {
    hide Mul, Add, Basis, Sum;
    var n := |xs| - 1;
    forall i | 0 <= i < n ensures ys[i] == Mul(Add(xs[i], xs[n]), Repeat(ONE, n)[i]) {
      MulOne(Add(xs[i], xs[n]));
    }
    AddSelf(xs[n]);
    InterpolateWithoutLast(xs, ys, Repeat(ONE, n), at);
    MulOne(Add(at, xs[n]));
  }

  lemma VanishAtFirst(xs: Bytes, ys: Bytes, at: Byte)
    requires Distinct(xs) && |xs| == |ys| > 1
    requires forall i :: 0 <= i < |xs| ==> ys[i] == Add(xs[i], xs[0])
    requires Interpolate(xs[1..], Repeat(ONE, |xs| - 1), at) == ONE
    ensures Interpolate(xs, ys, at) == Add(at, xs[0])
  {
    hide Mul, Add, Basis, Sum;
    var n := |xs| - 1;
    forall i | 0 < i < |xs| ensures ys[i] == Mul(Add(xs[i], xs[0]), Repeat(ONE, n)[i - 1]) {
      MulOne(Add(xs[i], xs[0]));
    }
    AddSelf(xs[0]);
    SumWithoutFirst(xs, ys, Repeat(ONE, n), at, n);
    MulOne(Add(at, xs[0]));
  }

  /** Interpolation through enough points of a polynomial is the polynomial, at every point. */
  lemma {:induction false} InterpolateRecovers(xs: Bytes, ys: Bytes, coeffs: Bytes, at: Byte)
    requires Distinct(xs) && |coeffs| <= |xs| == |ys|
    requires forall i :: 0 <= i < |xs| ==> ys[i] == Eval(coeffs, xs[i])
    ensures Interpolate(xs, ys, at) == Eval(coeffs, at)
    decreases |xs|
  {
    hide Mul, Add, Basis;
    if |xs| > 0 {
      hide Sum;
      var n := |xs| - 1;
      var z := xs[n];
      var q := Quotient(coeffs, z);
      var hs := seq(n, i requires 0 <= i < n => Eval(q, xs[i]));
      InterpolateRecovers(xs[..n], hs, q, at);
      var rest := seq(|xs|, i requires 0 <= i < |xs| => Mul(Add(xs[i], z), Eval(q, xs[i])));
      AddSelf(z);
      MulZero(Eval(q, z));
      InterpolateWithoutLast(xs, rest, hs, at);
      var c := Eval(coeffs, z);
      var constant := Repeat(c, |xs|);
      forall i | 0 <= i < |xs| ensures ys[i] == Add(constant[i], rest[i])
          && constant[i] == Mul(c, Repeat(ONE, |xs|)[i]) {
        Division(coeffs, z, xs[i]);
        MulOne(c);
      }
      SumAdds(xs, ys, constant, rest, at, |xs|);
      SumScales(xs, constant, c, Repeat(ONE, |xs|), at, |xs|);
      InterpolateOne(xs, at);
      MulOne(c);
      Division(coeffs, z, at);
    }
  }

  // ------------------------------------------- the polynomial through given points

  /** Coefficients of (x - r) p(x). */
  function TimesRoot(coeffs: Bytes, r: Byte): (s: Bytes)
    ensures |s| == |coeffs| + 1
  {
    AddScaled([ZERO] + coeffs, r, coeffs)
  }

  lemma EvalTimesRoot(coeffs: Bytes, r: Byte, x: Byte)
    ensures Eval(TimesRoot(coeffs, r), x) == Mul(Eval(coeffs, x), Add(x, r))
  {
    hide Mul, Add;
    var v := Eval(coeffs, x);
    EvalAddScaled([ZERO] + coeffs, r, coeffs, x);
    assert ([ZERO] + coeffs)[1..] == coeffs;
    AddCommutes(ZERO, Mul(x, v));
    AddZero(Mul(x, v));
    MulDistributes(v, x, r);
    MulCommutes(Add(x, r), v);
  }

  /** Coefficients of the product of (x - y) over the list. */
  function Roots(ys: Bytes): (s: Bytes)
    ensures |s| == |ys| + 1
  {
    if ys == [] then [ONE] else TimesRoot(Roots(ys[..|ys| - 1]), ys[|ys| - 1])
  }

  lemma {:induction false} EvalRoots(ys: Bytes, x: Byte)
    ensures Eval(Roots(ys), x) == Prod(ys, x)
  {
    hide Mul, Add, TimesRoot;
    if ys == [] {
      MulZero(x);
      AddZero(ONE);
    } else {
      var n := |ys| - 1;
      EvalRoots(ys[..n], x);
      EvalTimesRoot(Roots(ys[..n]), ys[n], x);
    }
  }

  lemma {:induction false} ProdZero(ys: Bytes, at: Byte)
    requires at in ys
    ensures Prod(ys, at) == ZERO
  {
    hide Mul, Add;
    var n := |ys| - 1;
    if at == ys[n] {
      AddSelf(at);
      MulZero(Prod(ys[..n], at));
    } else {
      ProdZero(ys[..n], at);
      MulZero(Add(at, ys[n]));
    }
  }

  lemma {:induction false} EvalPadded(coeffs: Bytes, x: Byte)
    ensures Eval(coeffs + [ZERO], x) == Eval(coeffs, x)
  {
    hide Mul, Add;
    if coeffs == [] {
      MulZero(x);
      AddZero(ZERO);
    } else {
      EvalPadded(coeffs[1..], x);
      assert (coeffs + [ZERO])[1..] == coeffs[1..] + [ZERO];
    }
  }

  /** Newton's form: one more point adds a multiple of the product of the earlier roots. */
  function Through(xs: Bytes, ys: Bytes): (coeffs: Bytes)
    requires |xs| == |ys|
    ensures |coeffs| == |xs|
  {
    if xs == [] then []
    else
      var n := |xs| - 1;
      var p := Through(xs[..n], ys[..n]);
      AddScaled(p + [ZERO], Div(Add(ys[n], Eval(p, xs[n])), Prod(xs[..n], xs[n])), Roots(xs[..n]))
  }

  lemma {:induction false} ThroughMeets(xs: Bytes, ys: Bytes, i: nat)
    requires Distinct(xs) && i < |xs| == |ys|
    ensures Eval(Through(xs, ys), xs[i]) == ys[i]
    decreases |xs|
  {
    hide Mul, Add, Div, Eval, AddScaled, Roots, Prod;
    var n := |xs| - 1;
    var front := xs[..n];
    var p := Through(front, ys[..n]);
    var gap := Add(ys[n], Eval(p, xs[n]));
    var c := Div(gap, Prod(front, xs[n]));
    EvalAddScaled(p + [ZERO], c, Roots(front), xs[i]);
    EvalPadded(p, xs[i]);
    EvalRoots(front, xs[i]);
    if i < n {
      ThroughMeets(front, ys[..n], i);
      ProdZero(front, xs[i]);
      MulZero(c);
      AddZero(ys[i]);
    } else {
      ProdNonZero(front, xs[n]);
      DivMul(gap, Prod(front, xs[n]));
      GapCloses(ys[n], Eval(p, xs[n]));
    }
  }

  lemma GapCloses(y: Byte, v: Byte)
    ensures Add(v, Add(y, v)) == y
  {
    hide Add;
    AddCommutes(y, v);
    AddTwice(v, y);
  }

  // ------------------------------------------------------------------------- split

  /** The value of a list of bits, the lowest first. */
  function Worth(bits: seq<bool>): nat {
    if bits == [] then 0 else (if bits[0] then 1 else 0) + 2 * Worth(bits[1..])
  }

  function ToNat(a: Byte): nat {
    Worth(a)
  }

  /** The list with this value, if it is long enough for it. */
  function BitsOf(n: nat, width: nat): (bits: seq<bool>)
    ensures |bits| == width
    ensures n < Pow2(width) ==> Worth(bits) == n
  {
    if width == 0 then [] else [n % 2 == 1] + BitsOf(n / 2, width - 1)
  }

  /** The byte with this value. */
  function OfNat(n: nat): (a: Byte)
    requires n < 256
    ensures ToNat(a) == n
  {
    assert Pow2(8) == 256;
    BitsOf(n, 8)
  }

  /** The coordinate of the share at this position. */
  function Coordinate(k: nat): (x: Byte)
    requires k < 255
    ensures ToNat(x) == k + 1
  {
    OfNat(k + 1)
  }

  /** The share with coordinate `x`: one value per polynomial. */
  function ShareAt(polynomials: seq<Bytes>, x: Byte): (share: Bytes)
    ensures |share| == |polynomials| + 1 && share[0] == x
  {
    [x] + seq(|polynomials|, i requires 0 <= i < |polynomials| => Eval(polynomials[i], x))
  }

  lemma ShareAtValue(polynomials: seq<Bytes>, x: Byte, i: nat)
    requires i < |polynomials|
    ensures ShareAt(polynomials, x)[i + 1] == Eval(polynomials[i], x)
  {
    hide Eval;
  }

  lemma ShareAtGrows(polynomials: seq<Bytes>, coeffs: Bytes, x: Byte)
    ensures ShareAt(polynomials + [coeffs], x) == ShareAt(polynomials, x) + [Eval(coeffs, x)]
  {
    hide Eval;
  }

  /** One polynomial of `t` coefficients per secret byte, with that byte as constant term. */
  ghost predicate Hides(polynomials: seq<Bytes>, secret: Bytes, t: nat) {
    && |polynomials| == |secret|
    && forall i :: 0 <= i < |secret| ==> |polynomials[i]| == t && t > 0 && polynomials[i][0] == secret[i]
  }

  datatype Error = BadThreshold | EmptySecret | NoRandomness | NoShares | BadShareLength | ZeroCoordinate

  /** Evaluates one more polynomial for every share. */
  method AppendValues(rows: seq<Bytes>, coeffs: Bytes, ghost polynomials: seq<Bytes>) returns (r: seq<Bytes>)
    requires |rows| <= 255
    requires forall k :: 0 <= k < |rows| ==> rows[k] == ShareAt(polynomials, Coordinate(k))
    ensures |r| == |rows|
    ensures forall k :: 0 <= k < |rows| ==> r[k] == ShareAt(polynomials + [coeffs], Coordinate(k))
  {
    hide *;
    r := [];
    for i := 0 to |rows|
      invariant |r| == i
      invariant forall k :: 0 <= k < i ==> r[k] == ShareAt(polynomials + [coeffs], Coordinate(k))
    {
      var y := EvalPoly(coeffs, Coordinate(i));
      ShareAtGrows(polynomials, coeffs, Coordinate(i));
      r := r + [rows[i] + [y]];
    }
  }

  /** `random` supplies the higher coefficients of each polynomial, unless the source of randomness fails. */
  method Split(secret: Bytes, n: int, t: int, random: nat -> Option<Bytes>)
    returns (shares: Result<seq<Bytes>, Error>, ghost polynomials: seq<Bytes>)
    requires t >= 1 ==> forall i :: random(i).Some? ==> |random(i).value| == t - 1
    ensures shares.Ok? <==>
            1 <= t <= n <= 255 && secret != [] && forall i :: 0 <= i < |secret| ==> random(i).Some?
    ensures shares.Err? ==>
              shares.error == if !(1 <= t <= n <= 255) then BadThreshold
                              else if secret == [] then EmptySecret else NoRandomness
    ensures shares.Ok? ==> Hides(polynomials, secret, t) && |shares.value| == n
    ensures shares.Ok? ==> forall i :: 0 <= i < |secret| ==> polynomials[i] == [secret[i]] + random(i).value
    ensures shares.Ok? ==> forall k :: 0 <= k < n ==> shares.value[k] == ShareAt(polynomials, Coordinate(k))
  {
    hide Coordinate, ToNat, Eval, ShareAt;
    polynomials := [];
    if t < 1 || n < t || n > 255 {
      return Err(BadThreshold), polynomials;
    }
    if secret == [] {
      return Err(EmptySecret), polynomials;
    }
    var rows: seq<Bytes> := seq(n, k requires 0 <= k < n => [Coordinate(k)]);
    for i := 0 to |secret|
      invariant |polynomials| == i && |rows| == n
      invariant forall j :: 0 <= j < i ==> random(j).Some? && polynomials[j] == [secret[j]] + random(j).value
      invariant forall k :: 0 <= k < n ==> rows[k] == ShareAt(polynomials, Coordinate(k))
    {
      var drawn := random(i);
      if drawn.None? {
        return Err(NoRandomness), polynomials;
      }
      var coeffs := [secret[i]] + drawn.value;
      rows := AppendValues(rows, coeffs, polynomials);
      polynomials := polynomials + [coeffs];
    }
    return Ok(rows), polynomials;
  }

  // ----------------------------------------------------------------------- combine

  /** The coordinate of a share; an empty one is refused before it is looked at. */
  function X(share: Bytes): Byte {
    if share == [] then ZERO else share[0]
  }

  /** The shares that do not have this coordinate. */
  function Others(shares: seq<Bytes>, x: Byte): (r: seq<Bytes>)
    ensures forall s :: s in r <==> s in shares && X(s) != x
  {
    if shares == [] then []
    else if X(shares[0]) == x then Others(shares[1..], x)
    else [shares[0]] + Others(shares[1..], x)
  }

  /** Per coordinate, the last share of the list. */
  function LastPerX(shares: seq<Bytes>): (r: seq<Bytes>)
    ensures forall s :: s in r ==> s in shares
  {
    if shares == [] then []
    else
      var n := |shares| - 1;
      Others(LastPerX(shares[..n]), X(shares[n])) + [shares[n]]
  }

  /** No later share has the coordinate of share `i`. */
  ghost predicate LastOfItsX(shares: seq<Bytes>, i: nat) {
    i < |shares| && forall j :: i < j < |shares| ==> X(shares[j]) != X(shares[i])
  }

  /** Of several shares with one coordinate, the last one counts. */
  lemma {:induction false} LastPerXIff(shares: seq<Bytes>, s: Bytes)
    ensures s in LastPerX(shares) <==> exists i: nat :: LastOfItsX(shares, i) && shares[i] == s
  {
    hide X;
    if shares != [] {
      var n := |shares| - 1;
      var front := shares[..n];
      LastPerXIff(front, s);
      assert LastOfItsX(shares, n);
      forall i: nat | i < n
        ensures LastOfItsX(shares, i) <==> LastOfItsX(front, i) && X(shares[i]) != X(shares[n])
      {
        assert forall j :: 0 <= j < n ==> front[j] == shares[j];
      }
      if s in LastPerX(shares) && s != shares[n] {
        var i: nat :| LastOfItsX(front, i) && front[i] == s;
        assert LastOfItsX(shares, i) && shares[i] == s;
      }
      if exists i: nat :: LastOfItsX(shares, i) && shares[i] == s {
        var i: nat :| LastOfItsX(shares, i) && shares[i] == s;
        assert i < n ==> LastOfItsX(front, i) && front[i] == s;
      }
    }
  }

  ghost predicate DistinctX(shares: seq<Bytes>) {
    forall i, j :: 0 <= i < j < |shares| ==> X(shares[i]) != X(shares[j])
  }

  function Coordinates(shares: seq<Bytes>): (xs: Bytes)
    ensures |xs| == |shares| && forall i :: 0 <= i < |xs| ==> xs[i] == X(shares[i])
  {
    seq(|shares|, i requires 0 <= i < |shares| => X(shares[i]))
  }

  /** Every share holds a coordinate and `length` values. */
  ghost predicate Long(shares: seq<Bytes>, length: nat) {
    forall s :: s in shares ==> |s| == length + 1
  }

  /** Column `i + 1` of the shares. */
  function Column(shares: seq<Bytes>, length: nat, i: nat): (ys: Bytes)
    requires Long(shares, length) && i < length
    ensures |ys| == |shares| && forall k :: 0 <= k < |ys| ==> ys[k] == shares[k][i + 1]
  {
    seq(|shares|, k requires 0 <= k < |shares| => assert shares[k] in shares; shares[k][i + 1])
  }

  /** The first reason to refuse a list of shares. */
  ghost function Flaw(shares: seq<Bytes>): (flaw: Option<Error>)
    ensures flaw.None? <==> shares != [] && |shares[0]| >= 2 && Long(shares, |shares[0]| - 1)
                            && forall s :: s in shares ==> X(s) != ZERO
  {
    if shares == [] then Some(NoShares)
    else if |shares[0]| < 2 || !Long(shares, |shares[0]| - 1) then Some(BadShareLength)
    else if exists s :: s in shares && X(s) == ZERO then Some(ZeroCoordinate)
    else None
  }

  /** Byte by byte, the value at zero of the polynomial through the points. */
  ghost function Secret(points: seq<Bytes>, length: nat): (r: Bytes)
    requires Long(points, length)
    ensures |r| == length
  {
    seq(length, i requires 0 <= i < length => Interpolate(Coordinates(points), Column(points, length, i), ZERO))
  }

  ghost function Combined(shares: seq<Bytes>): Result<Bytes, Error> {
    if Flaw(shares).Some? then Err(Flaw(shares).value)
    else Ok(Secret(LastPerX(shares), |shares[0]| - 1))
  }

  /** The map holds the listed shares, each under its own coordinate. */
  ghost predicate Holds(byX: map<Byte, Bytes>, shares: seq<Bytes>) {
    && (forall s :: s in shares ==> X(s) in byX && byX[X(s)] == s)
    && (forall x :: x in byX ==> byX[x] in shares && X(byX[x]) == x)
  }

  /** Collects the shares by coordinate, later ones replacing earlier ones. */
  method CollectByX(shares: seq<Bytes>) returns (byX: Option<map<Byte, Bytes>>)
    ensures byX.Some? <==> forall s :: s in shares ==> X(s) != ZERO
    ensures byX.Some? ==> Holds(byX.value, LastPerX(shares))
  {
    hide *;
    var m: map<Byte, Bytes> := map[];
    NothingHeld();
    assert shares[..0] == [];
    for i := 0 to |shares|
      invariant Holds(m, LastPerX(shares[..i]))
      invariant forall k :: 0 <= k < i ==> X(shares[k]) != ZERO
    {
      assert shares[i] in shares;
      if X(shares[i]) == ZERO {
        return None;
      }
      LastPerXStep(shares, i);
      HoldsStep(m, LastPerX(shares[..i]), shares[i]);
      m := m[X(shares[i]) := shares[i]];
    }
    assert shares[..|shares|] == shares;
    return Some(m);
  }

  lemma NothingHeld()
    ensures Holds(map[], LastPerX([]))
  {
  }

  lemma LastPerXStep(shares: seq<Bytes>, i: nat)
    requires i < |shares|
    ensures LastPerX(shares[..i + 1]) == Others(LastPerX(shares[..i]), X(shares[i])) + [shares[i]]
  {
    hide X, Others;
    assert shares[..i + 1][..i] == shares[..i];
  }

  lemma HoldsStep(m: map<Byte, Bytes>, list: seq<Bytes>, share: Bytes)
    requires Holds(m, list)
    ensures Holds(m[X(share) := share], Others(list, X(share)) + [share])
  {
    hide X, Others;
  }

  /** The values of the map, in no particular order. */
  method ListValues(byX: map<Byte, Bytes>) returns (list: seq<Bytes>)
    requires forall x :: x in byX ==> X(byX[x]) == x
    ensures DistinctX(list) && Holds(byX, list)
  {
    hide X;
    list := [];
    var left := byX.Keys;
    while left != {}
      invariant left <= byX.Keys && DistinctX(list)
      invariant forall s :: s in list ==> X(s) in byX && X(s) !in left && byX[X(s)] == s
      invariant forall x :: x in byX && x !in left ==> byX[x] in list
      decreases left
    {
      var x :| x in left;
      left := left - {x};
      list := list + [byX[x]];
    }
  }

  lemma RefusedIff(shares: seq<Bytes>)
    ensures Flaw(shares) == Some(NoShares) <==> shares == []
    ensures Flaw(shares) == Some(BadShareLength) <==>
            shares != [] && (|shares[0]| < 2 || exists s :: s in shares && |s| != |shares[0]|)
    ensures Flaw(shares) == Some(ZeroCoordinate) <==>
            && shares != [] && |shares[0]| >= 2 && (forall s :: s in shares ==> |s| == |shares[0]|)
            && exists s :: s in shares && s[0] == ZERO
  {
  }

  /** Whatever order the map is iterated in, the result is the one of `Combined`. */
  method Combine(shares: seq<Bytes>) returns (r: Result<Bytes, Error>)
    ensures r == Combined(shares)
    ensures r == Err(NoShares) <==> shares == []
    ensures r == Err(BadShareLength) <==>
            shares != [] && (|shares[0]| < 2 || exists s :: s in shares && |s| != |shares[0]|)
    ensures r == Err(ZeroCoordinate) <==>
            && shares != [] && |shares[0]| >= 2 && (forall s :: s in shares ==> |s| == |shares[0]|)
            && exists s :: s in shares && s[0] == ZERO
  {
    RefusedIff(shares);
    hide Interpolate, LastPerX, X;
    if |shares| < 1 {
      return Err(NoShares);
    }
    if |shares[0]| < 2 {
      return Err(BadShareLength);
    }
    var secretLen := |shares[0]| - 1;
    for i := 0 to |shares|
      invariant forall k :: 0 <= k < i ==> |shares[k]| == secretLen + 1
    {
      if |shares[i]| != secretLen + 1 {
        assert shares[i] in shares;
        return Err(BadShareLength);
      }
    }
    var byX := CollectByX(shares);
    if byX.None? {
      return Err(ZeroCoordinate);
    }
    var points := ListValues(byX.value);
    var out: Bytes := [];
    for i := 0 to secretLen
      invariant |out| == i
      invariant forall k :: 0 <= k < i ==>
                  out[k] == Interpolate(Coordinates(points), Column(points, secretLen, k), ZERO)
    {
      var b := InterpolateLoop(Coordinates(points), Column(points, secretLen, i), ZERO);
      out := out + [b];
    }
    assert out == Secret(points, secretLen);
    LastPerXDistinct(shares);
    SecretIgnoresOrder(points, LastPerX(shares), secretLen);
    return Ok(out);
  }

  lemma {:induction false} OthersDistinct(shares: seq<Bytes>, x: Byte)
    requires DistinctX(shares)
    ensures DistinctX(Others(shares, x))
  {
    hide X;
    if shares != [] {
      var tail := shares[1..];
      OthersDistinct(tail, x);
      var rest := Others(tail, x);
      forall k | 0 <= k < |rest| ensures X(rest[k]) != X(shares[0]) {
        assert rest[k] in rest;
        var m :| 0 <= m < |tail| && tail[m] == rest[k];
        assert tail[m] == shares[m + 1];
      }
    }
  }

  lemma {:induction false} LastPerXDistinct(shares: seq<Bytes>)
    ensures DistinctX(LastPerX(shares))
  {
    hide X, Others;
    if shares != [] {
      var n := |shares| - 1;
      var last := shares[n];
      LastPerXDistinct(shares[..n]);
      var rest := Others(LastPerX(shares[..n]), X(last));
      OthersDistinct(LastPerX(shares[..n]), X(last));
      forall k | 0 <= k < |rest| ensures X(rest[k]) != X(last) {
        assert rest[k] in rest;
      }
    }
  }

  // ------------------------------------------------------------- order independence

  /** Two lists of the same shares. */
  ghost predicate SamePoints(a: seq<Bytes>, b: seq<Bytes>) {
    && DistinctX(a)
    && DistinctX(b)
    && forall s :: s in a <==> s in b
  }

  ghost function Members(list: seq<Bytes>): set<Bytes> {
    set s | s in list
  }

  lemma {:induction false} DistinctCount(list: seq<Bytes>)
    requires DistinctX(list)
    ensures |Members(list)| == |list|
  {
    hide X;
    if list == [] {
      assert Members(list) == {};
    } else {
      var n := |list| - 1;
      DistinctCount(list[..n]);
      assert list[n] !in list[..n];
      assert Members(list) == Members(list[..n]) + {list[n]};
    }
  }

  lemma SameLength(a: seq<Bytes>, b: seq<Bytes>)
    requires SamePoints(a, b)
    ensures |a| == |b|
  {
    hide X;
    DistinctCount(a);
    DistinctCount(b);
    assert Members(a) == Members(b);
  }

  /** The order of the points does not matter, whether or not they come from one split. */
  lemma SecretIgnoresOrder(a: seq<Bytes>, b: seq<Bytes>, length: nat)
    requires SamePoints(a, b) && Long(a, length) && Long(b, length)
    ensures Secret(a, length) == Secret(b, length)
  {
    hide X, Interpolate;
    forall i | 0 <= i < length ensures Secret(a, length)[i] == Secret(b, length)[i] {
      ByteIgnoresOrder(a, b, length, i);
    }
  }

  lemma ByteIgnoresOrder(a: seq<Bytes>, b: seq<Bytes>, length: nat, i: nat)
    requires SamePoints(a, b) && Long(a, length) && Long(b, length) && i < length
    ensures Interpolate(Coordinates(a), Column(a, length, i), ZERO) ==
            Interpolate(Coordinates(b), Column(b, length, i), ZERO)
  {
    hide X, Interpolate, Eval, Through;
    SameLength(a, b);
    var xs, ys := Coordinates(a), Column(a, length, i);
    var coeffs := Through(xs, ys);
    forall k | 0 <= k < |xs| ensures Eval(coeffs, xs[k]) == ys[k] {
      ThroughMeets(xs, ys, k);
    }
    InterpolateRecovers(xs, ys, coeffs, ZERO);
    forall k | 0 <= k < |b| ensures Column(b, length, i)[k] == Eval(coeffs, Coordinates(b)[k]) {
      assert b[k] in b;
      var m :| 0 <= m < |a| && a[m] == b[k];
    }
    InterpolateRecovers(Coordinates(b), Column(b, length, i), coeffs, ZERO);
  }

  /** Two lists of the same shares combine to the same result. */
  lemma CombinedIgnoresOrder(a: seq<Bytes>, b: seq<Bytes>)
    requires SamePoints(a, b)
    ensures Combined(a) == Combined(b)
  {
    hide X, Secret, LastPerX;
    DistinctKept(a);
    DistinctKept(b);
    SameLength(a, b);
    if a != [] {
      assert a[0] in a && b[0] in b;
      assert a[0] in b && b[0] in a;
      if Flaw(a).None? {
        SecretIgnoresOrder(a, b, |a[0]| - 1);
      }
    }
  }

  /** Distinct coordinates are all kept. */
  lemma {:induction false} DistinctKept(shares: seq<Bytes>)
    requires DistinctX(shares)
    ensures LastPerX(shares) == shares
  {
    hide X, Others;
    if shares != [] {
      var n := |shares| - 1;
      var front := shares[..n];
      DistinctKept(front);
      NoneDropped(front, X(shares[n]));
      assert shares == front + [shares[n]];
    }
  }

  lemma {:induction false} NoneDropped(shares: seq<Bytes>, x: Byte)
    requires forall i :: 0 <= i < |shares| ==> X(shares[i]) != x
    ensures Others(shares, x) == shares
  {
    hide X;
    if shares != [] {
      NoneDropped(shares[1..], x);
    }
  }

  // ----------------------------------------------------------------- the round trip

  /** The share belongs to this split. */
  ghost predicate ShareOf(polynomials: seq<Bytes>, share: Bytes) {
    X(share) != ZERO && share == ShareAt(polynomials, X(share))
  }

  lemma PointsRecover(secret: Bytes, polynomials: seq<Bytes>, t: nat, points: seq<Bytes>)
    requires Hides(polynomials, secret, t) && |points| >= t
    requires forall s :: s in points ==> ShareOf(polynomials, s)
    requires Long(points, |secret|) && DistinctX(points)
    ensures Secret(points, |secret|) == secret
  {
    hide Interpolate, Eval, ShareAt, X;
    var r := Secret(points, |secret|);
    forall i | 0 <= i < |secret| ensures r[i] == secret[i] {
      var xs, ys := Coordinates(points), Column(points, |secret|, i);
      forall k | 0 <= k < |xs| ensures ys[k] == Eval(polynomials[i], xs[k]) {
        assert points[k] in points;
        ShareAtValue(polynomials, xs[k], i);
      }
      InterpolateRecovers(xs, ys, polynomials[i], ZERO);
      EvalAtZero(polynomials[i]);
    }
  }

  /** The different coordinates in a list of shares. */
  ghost function Xs(shares: seq<Bytes>): set<Byte> {
    set s | s in shares :: X(s)
  }

  lemma {:induction false} XsKept(shares: seq<Bytes>)
    ensures Xs(LastPerX(shares)) == Xs(shares)
  {
    hide X, Others;
    if shares != [] {
      var n := |shares| - 1;
      var kept := LastPerX(shares[..n]);
      XsKept(shares[..n]);
      var x := X(shares[n]);
      assert Xs(LastPerX(shares)) == (Xs(kept) - {x}) + {x};
      assert Xs(shares) == Xs(shares[..n]) + {x};
    }
  }

  lemma {:induction false} XsCount(shares: seq<Bytes>)
    requires DistinctX(shares)
    ensures |Xs(shares)| == |shares|
  {
    hide X;
    if shares == [] {
      assert Xs(shares) == {};
    } else {
      var n := |shares| - 1;
      XsCount(shares[..n]);
      assert X(shares[n]) !in Xs(shares[..n]);
      assert Xs(shares) == Xs(shares[..n]) + {X(shares[n])};
    }
  }

  /**
   Any list of shares of one split with at least `t` different coordinates, in any order
   and with any repetitions, gives the secret back.
   */
  lemma CombineUndoesSplit(secret: Bytes, polynomials: seq<Bytes>, t: nat, shares: seq<Bytes>)
    requires Hides(polynomials, secret, t) && secret != []
    requires forall s :: s in shares ==> ShareOf(polynomials, s)
    requires |Xs(shares)| >= t
    ensures Combined(shares) == Ok(secret)
  {
    hide Interpolate, Eval, LastPerX, Secret, X, ShareAt;
    XsKept(shares);
    LastPerXDistinct(shares);
    XsCount(LastPerX(shares));
    assert t > 0 by {
      assert |polynomials[0]| == t;
    }
    assert LastPerX(shares)[0] in shares;
    assert shares[0] in shares;
    PointsRecover(secret, polynomials, t, LastPerX(shares));
  }

  // ------------------------------------------------------------------------ secrecy

  /** The multiple of the product of (x - xs[i]) that turns the constant term `s` into `s'`. */
  function Mask(xs: Bytes, s: Byte, s': Byte): Byte {
    Div(Add(s, s'), Prod(xs, ZERO))
  }

  /** Another choice of coefficients, for the secret byte `s'` instead of `s`. */
  function Masked(coeffs: Bytes, xs: Bytes, s: Byte, s': Byte): (r: Bytes)
    requires |xs| < |coeffs|
    ensures |r| == |coeffs|
  {
    AddScaled(coeffs, Mask(xs, s, s'), Roots(xs))
  }

  lemma {:induction false} AddScaledTwice(a: Bytes, r: Byte, b: Bytes)
    requires |b| <= |a|
    ensures AddScaled(AddScaled(a, r, b), r, b) == a
  {
    hide Mul, Add;
    if b != [] {
      var once := AddScaled(a, r, b);
      assert once[1..] == AddScaled(a[1..], r, b[1..]);
      AddScaledTwice(a[1..], r, b[1..]);
      AddTwice(a[0], Mul(r, b[0]));
    }
  }

  /**
   Fewer than `t` shares say nothing about a secret byte. `Masked` is its own inverse on the
   coefficient lists of one length, so it pairs every choice of the dealer for the byte `s` with
   exactly one choice for the byte `s'`; the two give the same value at all the coordinates held.
   */
  lemma FewSharesHideTheByte(coeffs: Bytes, xs: Bytes, s: Byte, s': Byte)
    requires |xs| < |coeffs| && coeffs[0] == s && ZERO !in xs
    ensures Masked(coeffs, xs, s, s')[0] == s'
    ensures Masked(Masked(coeffs, xs, s, s'), xs, s', s) == coeffs
    ensures forall x :: x in xs ==> Eval(Masked(coeffs, xs, s, s'), x) == Eval(coeffs, x)
  {
    hide Mul, Add, Eval, AddScaled, Roots, Prod, Div;
    var c := Mask(xs, s, s');
    var other := Masked(coeffs, xs, s, s');
    AddCommutes(s, s');
    AddScaledTwice(coeffs, c, Roots(xs));
    EvalAddScaled(coeffs, c, Roots(xs), ZERO);
    EvalRoots(xs, ZERO);
    ProdNonZero(xs, ZERO);
    DivMul(Add(s, s'), Prod(xs, ZERO));
    EvalAtZero(coeffs);
    EvalAtZero(other);
    AddCommutes(s, s');
    GapCloses(s', s);
    forall x | x in xs ensures Eval(other, x) == Eval(coeffs, x) {
      EvalAddScaled(coeffs, c, Roots(xs), x);
      EvalRoots(xs, x);
      ProdZero(xs, x);
      MulZero(c);
      AddZero(Eval(coeffs, x));
    }
  }

  ghost function MaskedAll(polynomials: seq<Bytes>, xs: Bytes, secret: Bytes, secret': Bytes): (r: seq<Bytes>)
    requires |polynomials| == |secret| == |secret'|
    requires forall i :: 0 <= i < |polynomials| ==> |xs| < |polynomials[i]|
    ensures |r| == |polynomials| && forall i :: 0 <= i < |r| ==> |r[i]| == |polynomials[i]|
  {
    seq(|polynomials|, i requires 0 <= i < |polynomials| => Masked(polynomials[i], xs, secret[i], secret'[i]))
  }

  /** The same for whole secrets: every holding of fewer than `t` shares fits every secret equally often. */
  lemma FewSharesHideTheSecret(polynomials: seq<Bytes>, xs: Bytes, secret: Bytes, secret': Bytes, t: nat)
    requires Hides(polynomials, secret, t) && |secret'| == |secret| && |xs| < t && ZERO !in xs
    ensures var others := MaskedAll(polynomials, xs, secret, secret');
            && Hides(others, secret', t)
            && MaskedAll(others, xs, secret', secret) == polynomials
            && forall x :: x in xs ==> ShareAt(others, x) == ShareAt(polynomials, x)
  {
    hide Masked, Eval;
    forall i | 0 <= i < |polynomials|
      ensures Masked(polynomials[i], xs, secret[i], secret'[i])[0] == secret'[i]
      ensures Masked(Masked(polynomials[i], xs, secret[i], secret'[i]), xs, secret'[i], secret[i]) == polynomials[i]
      ensures forall x :: x in xs ==>
                Eval(Masked(polynomials[i], xs, secret[i], secret'[i]), x) == Eval(polynomials[i], x)
    {
      FewSharesHideTheByte(polynomials[i], xs, secret[i], secret'[i]);
    }
    var others := MaskedAll(polynomials, xs, secret, secret');
    forall x | x in xs ensures ShareAt(others, x) == ShareAt(polynomials, x) {
    }
  }

  // ------------------------------------------------------------ split, then combine

  /** The list at these positions. */
  function At(shares: seq<Bytes>, at: seq<nat>): (r: seq<Bytes>)
    requires forall i :: 0 <= i < |at| ==> at[i] < |shares|
    ensures |r| == |at| && forall i :: 0 <= i < |at| ==> r[i] == shares[at[i]]
  {
    seq(|at|, i requires 0 <= i < |at| => shares[at[i]])
  }

  lemma ShareOfCoordinate(polynomials: seq<Bytes>, k: nat)
    requires k < 255
    ensures ShareOf(polynomials, ShareAt(polynomials, Coordinate(k)))
  {
    hide ShareAt, Coordinate;
    assert ToNat(Coordinate(k)) == k + 1;
    assert ToNat(ZERO) == 0;
  }

  /** The shares of a split have different coordinates, so any `t` different positions are enough. */
  lemma AnyPickRecovers(secret: Bytes, polynomials: seq<Bytes>, t: nat, shares: seq<Bytes>, at: seq<nat>)
    requires Hides(polynomials, secret, t) && secret != [] && |shares| <= 255
    requires forall k :: 0 <= k < |shares| ==> shares[k] == ShareAt(polynomials, Coordinate(k))
    requires forall i :: 0 <= i < |at| ==> at[i] < |shares|
    requires |at| >= t && forall i, j :: 0 <= i < j < |at| ==> at[i] != at[j]
    ensures Combined(At(shares, at)) == Ok(secret)
  {
    hide ShareAt, Combined, Eval, Coordinate;
    var list := At(shares, at);
    forall s | s in list ensures ShareOf(polynomials, s) {
      var i :| 0 <= i < |list| && list[i] == s;
      ShareOfCoordinate(polynomials, at[i]);
    }
    forall i, j | 0 <= i < j < |list| ensures X(list[i]) != X(list[j]) {
      OfNatDistinct(at[i], at[j]);
    }
    XsCount(list);
    CombineUndoesSplit(secret, polynomials, t, list);
  }

  lemma OfNatDistinct(j: nat, k: nat)
    requires j < 255 && k < 255 && j != k
    ensures Coordinate(j) != Coordinate(k)
  {
    hide Coordinate, ToNat;
    assert ToNat(Coordinate(j)) == j + 1 && ToNat(Coordinate(k)) == k + 1;
  }
}
