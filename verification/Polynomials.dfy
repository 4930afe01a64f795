/**
 Polynomials over the Goldilocks field, lowest coefficient first.

 The reference meaning of a coefficient vector is the sum of c[i] * x^i; the coefficients of a
 product are given by the convolution formula. The loops of the class are proved against these.
 */
module Polynomials {
  import NumberTheory
  import opened GoldilocksCertificate
  import opened Goldilocks

  /** The i-th coefficient; zero beyond either end. */
  function Coeff(s: seq<Fe>, i: int): Fe {
    if 0 <= i < |s| then s[i] else 0
  }

  ghost function Value(s: seq<Fe>, x: Fe): Fe {
    if s == [] then 0 else
      var n := |s| - 1;
      FeAdd(Value(s[..n], x), FeMul(s[n], Power(x, n)))
  }

  /** No leading zero: the class invariant of a polynomial. */
  predicate Normal(s: seq<Fe>) {
    s == [] || s[|s| - 1] != 0
  }

  function Trim(s: seq<Fe>): (r: seq<Fe>)
    ensures Normal(r) && r <= s
    ensures forall i :: |r| <= i < |s| ==> s[i] == 0
  {
    if Normal(s) then s else Trim(s[..|s| - 1])
  }

  function DegreeOf(s: seq<Fe>): int {
    if s == [] then -1 else |s| - 1
  }

  ghost function SumCoeffs(a: seq<Fe>, b: seq<Fe>): seq<Fe> {
    seq(if |a| > |b| then |a| else |b|, i => FeAdd(Coeff(a, i), Coeff(b, i)))
  }

  /** The first n terms of the convolution sum for the k-th coefficient of a product. */
  ghost function Conv(p: seq<Fe>, q: seq<Fe>, k: int, n: nat): Fe {
    if n == 0 then 0 else
      FeAdd(Conv(p, q, k, n - 1), FeMul(Coeff(p, n - 1), Coeff(q, k - (n - 1))))
  }

  ghost function ProductCoeffs(p: seq<Fe>, q: seq<Fe>): seq<Fe> {
    if p == [] || q == [] then [] else seq(|p| + |q| - 1, k => Conv(p, q, k, |p|))
  }

  class Polynomial {
    var coeffs: seq<Fe>

    ghost predicate Valid()
      reads this
    {
      Normal(coeffs)
    }

    constructor New(cs: seq<Fe>)
      ensures Valid() && coeffs == Trim(cs)
    {
      coeffs := cs;
      new;
      Normalize();
    }

    constructor Zero()
      ensures Valid() && coeffs == []
    {
      coeffs := [];
    }

    /** Pops leading zeros in place. */
    method Normalize()
      modifies this
      ensures Valid() && coeffs == Trim(old(coeffs))
    {
      while |coeffs| > 0 && coeffs[|coeffs| - 1] == 0
        invariant Trim(coeffs) == Trim(old(coeffs))
        decreases |coeffs|
      {
        coeffs := coeffs[..|coeffs| - 1];
      }
    }

    /** The degree: the last index with a coefficient other than zero, -1 if there is none. */
    function Degree(): (d: int)
      reads this
      ensures d >= -1 && forall i :: i > d ==> Coeff(coeffs, i) == 0
      ensures Valid() && (exists i :: Coeff(coeffs, i) != 0) ==> Coeff(coeffs, d) != 0
    {
      DegreeOf(coeffs)
    }

    /** Horner's rule computes the sum of c[i] * x^i. */
    method Evaluate(x: Fe) returns (result: Fe)
      ensures result == Value(coeffs, x)
    {
      if coeffs == [] {
        return 0;
      }
      var i := |coeffs| - 1;
      result := coeffs[i];
      AddLaws(Value(coeffs[..i], x), FeMul(result, Power(x, i)), 0);
      while i > 0
        invariant 0 <= i < |coeffs|
        invariant FeAdd(FeMul(result, Power(x, i)), Value(coeffs[..i], x)) == Value(coeffs, x)
      {
        HornerStep(result, x, coeffs, i);
        i := i - 1;
        result := FeAdd(FeMul(result, x), coeffs[i]);
      }
      MulUnit(result);
      AddLaws(result, 0, 0);
    }

    method Add(other: Polynomial) returns (r: Polynomial)
      ensures fresh(r) && r.Valid()
      ensures r.coeffs == Trim(SumCoeffs(coeffs, other.coeffs))
    {
      var maxLen := if |coeffs| > |other.coeffs| then |coeffs| else |other.coeffs|;
      var result: seq<Fe> := [];
      for i := 0 to maxLen
        invariant |result| == i
        invariant forall k :: 0 <= k < i ==> result[k] == FeAdd(Coeff(coeffs, k), Coeff(other.coeffs, k))
      {
        var a, b := Coeff(coeffs, i), Coeff(other.coeffs, i);
        result := result + [FeAdd(a, b)];
      }
      assert result == SumCoeffs(coeffs, other.coeffs);
      r := new Polynomial.New(result);
    }

    /** Schoolbook multiplication into a buffer. */
    method Mul(other: Polynomial) returns (r: Polynomial)
      ensures fresh(r) && r.Valid()
      ensures r.coeffs == Trim(ProductCoeffs(coeffs, other.coeffs))
      ensures Valid() && other.Valid() && Degree() >= 0 && other.Degree() >= 0
              ==> r.Degree() == Degree() + other.Degree()
    {
      var p, q := coeffs, other.coeffs;
      if p == [] || q == [] {
        r := new Polynomial.Zero();
        return;
      }
      var n := |p| + |q| - 1;
      var result := new Fe[n](_ => 0);
      for i := 0 to |p|
        invariant forall k :: 0 <= k < n ==> result[k] == Conv(p, q, k, i)
      {
        for j := 0 to |q|
          invariant forall k :: 0 <= k < n ==>
                                  result[k] == if k < i + j then Conv(p, q, k, i + 1) else Conv(p, q, k, i)
        {
          result[i + j] := FeAdd(result[i + j], FeMul(p[i], q[j]));
        }
        forall k | 0 <= k < n && (k < i || k >= i + |q|)
          ensures Conv(p, q, k, i + 1) == Conv(p, q, k, i)
        {
          ConvOutside(p, q, k, i);
        }
      }
      assert result[..] == ProductCoeffs(p, q);
      r := new Polynomial.New(result[..]);
      if Normal(p) && Normal(q) {
        ProductDegree(p, q);
      }
    }
  }

  lemma ConvOutside(p: seq<Fe>, q: seq<Fe>, k: int, i: nat)
    requires k < i || k >= i + |q|
    ensures Conv(p, q, k, i + 1) == Conv(p, q, k, i)
  {
    MulUnit(Coeff(p, i));
    AddLaws(Conv(p, q, k, i), 0, 0);
  }

  lemma HornerStep(result: Fe, x: Fe, cs: seq<Fe>, i: nat)
    requires 0 < i <= |cs|
    ensures FeAdd(FeMul(result, Power(x, i)), Value(cs[..i], x))
         == FeAdd(FeMul(FeAdd(FeMul(result, x), cs[i - 1]), Power(x, i - 1)),
                           Value(cs[..i - 1], x))
  {
    var c, w, v := cs[i - 1], Power(x, i - 1), Value(cs[..i - 1], x);
    assert cs[..i][..i - 1] == cs[..i - 1];
    assert Value(cs[..i], x) == FeAdd(v, FeMul(c, w));
    hide FeAdd, FeMul;
    MulDistributes(w, FeMul(result, x), c);
    MulAssociates(result, x, w);
    AddLaws(FeMul(result, Power(x, i)), FeMul(c, w), v);
    AddLaws(v, FeMul(c, w), 0);
  }

  // ----- the value of a vector is linear, and indifferent to zeros at the top -----

  lemma {:induction false} ValueLinear(a: seq<Fe>, b: seq<Fe>, c: Fe, r: seq<Fe>, x: Fe)
    requires |a| == |b| == |r|
    requires forall k :: 0 <= k < |r| ==> r[k] == FeAdd(a[k], FeMul(c, b[k]))
    ensures Value(r, x) == FeAdd(Value(a, x), FeMul(c, Value(b, x)))
  {
    if r == [] {
      MulUnit(c);
      AddLaws(0, 0, 0);
    } else {
      var n := |r| - 1;
      ValueLinear(a[..n], b[..n], c, r[..n], x);
      LinearStep(Value(a[..n], x), Value(b[..n], x), c, a[n], b[n], Power(x, n));
    }
  }

  /** (u + c*v) + (a + c*b)*w == (u + a*w) + c*(v + b*w) */
  lemma LinearStep(u: Fe, v: Fe, c: Fe, a: Fe, b: Fe, w: Fe)
    ensures FeAdd(FeAdd(u, FeMul(c, v)), FeMul(FeAdd(a, FeMul(c, b)), w))
         == FeAdd(FeAdd(u, FeMul(a, w)), FeMul(c, FeAdd(v, FeMul(b, w))))
  {
    hide FeAdd, FeMul;
    var cv, aw, cbw := FeMul(c, v), FeMul(a, w), FeMul(c, FeMul(b, w));
    MulDistributes(w, a, FeMul(c, b));
    MulAssociates(c, b, w);
    MulDistributes(c, v, FeMul(b, w));
    AddLaws(u, cv, FeAdd(aw, cbw));
    AddLaws(cv, aw, cbw);
    AddLaws(aw, cv, cbw);
    AddLaws(u, aw, FeAdd(cv, cbw));
  }

  lemma TopZero(s: seq<Fe>, x: Fe)
    requires s != [] && s[|s| - 1] == 0
    ensures Value(s, x) == Value(s[..|s| - 1], x)
  {
    MulUnit(Power(x, |s| - 1));
    AddLaws(Value(s[..|s| - 1], x), 0, 0);
  }

  lemma {:induction false} TrimValue(s: seq<Fe>, x: Fe)
    ensures Value(Trim(s), x) == Value(s, x)
  {
    if !Normal(s) {
      TopZero(s, x);
      TrimValue(s[..|s| - 1], x);
    }
  }

  ghost function Padded(s: seq<Fe>, n: nat): (r: seq<Fe>)
    ensures |r| == n
  {
    seq(n, i => Coeff(s, i))
  }

  lemma {:induction false} PaddedValue(s: seq<Fe>, n: nat, x: Fe)
    requires n >= |s|
    ensures Value(Padded(s, n), x) == Value(s, x)
  {
    if n == |s| {
      assert Padded(s, n) == s;
    } else {
      PaddedValue(s, n - 1, x);
      assert Padded(s, n)[..n - 1] == Padded(s, n - 1);
      TopZero(Padded(s, n), x);
    }
  }

  ghost function Zeros(n: nat): (r: seq<Fe>)
    ensures |r| == n
  {
    seq(n, _ => 0)
  }

  lemma {:induction false} ZerosValue(n: nat, x: Fe)
    ensures Value(Zeros(n), x) == 0
  {
    if n > 0 {
      ZerosValue(n - 1, x);
      assert Zeros(n)[..n - 1] == Zeros(n - 1);
      TopZero(Zeros(n), x);
    }
  }

  lemma {:induction false} ShiftedValue(n: nat, q: seq<Fe>, x: Fe)
    ensures Value(Zeros(n) + q, x) == FeMul(Power(x, n), Value(q, x))
  {
    hide FeAdd, FeMul, Power;
    if q == [] {
      assert Zeros(n) + q == Zeros(n);
      ZerosValue(n, x);
      MulUnit(Power(x, n));
    } else {
      var m := |q| - 1;
      var s := Zeros(n) + q;
      var xn, v, xm := Power(x, n), Value(q[..m], x), Power(x, m);
      ShiftedValue(n, q[..m], x);
      assert s[..n + m] == Zeros(n) + q[..m];
      PowerAdd(x, n, m);
      ShiftStep(xn, v, q[m], xm);
    }
  }

  lemma ShiftStep(u: Fe, v: Fe, c: Fe, w: Fe)
    ensures FeAdd(FeMul(u, v), FeMul(c, FeMul(u, w))) == FeMul(u, FeAdd(v, FeMul(c, w)))
  {
    hide FeAdd, FeMul;
    MulCommutes(c, FeMul(u, w));
    MulAssociates(u, w, c);
    MulCommutes(w, c);
    MulDistributes(u, v, FeMul(c, w));
  }

  // ----- addition and multiplication of values -----

  /** Evaluation is additive. */
  lemma SumValue(a: seq<Fe>, b: seq<Fe>, x: Fe)
    ensures Value(Trim(SumCoeffs(a, b)), x) == FeAdd(Value(a, x), Value(b, x))
  {
    var r := SumCoeffs(a, b);
    var n := |r|;
    TrimValue(r, x);
    PaddedValue(a, n, x);
    PaddedValue(b, n, x);
    forall k | 0 <= k < n
      ensures r[k] == FeAdd(Padded(a, n)[k], FeMul(1, Padded(b, n)[k]))
    {
      MulUnit(Padded(b, n)[k]);
    }
    ValueLinear(Padded(a, n), Padded(b, n), 1, r, x);
    MulUnit(Value(b, x));
  }

  /** The buffer after n rows of the schoolbook product. */
  ghost function Rows(p: seq<Fe>, q: seq<Fe>, n: nat, len: nat): (r: seq<Fe>)
    ensures |r| == len
  {
    seq(len, k => Conv(p, q, k, n))
  }

  lemma {:induction false} RowsValue(p: seq<Fe>, q: seq<Fe>, n: nat, len: nat, x: Fe)
    requires n <= |p| && |p| + |q| <= len + 1
    ensures Value(Rows(p, q, n, len), x) == FeMul(Value(p[..n], x), Value(q, x))
  {
    hide FeAdd, FeMul, Power;
    if n == 0 {
      assert Rows(p, q, 0, len) == Zeros(len);
      ZerosValue(len, x);
      MulUnit(Value(q, x));
    } else {
      var m := n - 1;
      var shifted := Padded(Zeros(m) + q, len);
      RowsValue(p, q, m, len, x);
      ValueLinear(Rows(p, q, m, len), shifted, p[m], Rows(p, q, n, len), x);
      PaddedValue(Zeros(m) + q, len, x);
      ShiftedValue(m, q, x);
      assert p[..n][..m] == p[..m];
      MulAssociates(p[m], Power(x, m), Value(q, x));
      MulDistributes(Value(q, x), Value(p[..m], x), FeMul(p[m], Power(x, m)));
    }
  }

  /** Evaluation is multiplicative. */
  lemma ProductValue(p: seq<Fe>, q: seq<Fe>, x: Fe)
    ensures Value(Trim(ProductCoeffs(p, q)), x) == FeMul(Value(p, x), Value(q, x))
  {
    TrimValue(ProductCoeffs(p, q), x);
    if p == [] || q == [] {
      MulUnit(Value(p, x));
      MulUnit(Value(q, x));
    } else {
      var len := |p| + |q| - 1;
      assert ProductCoeffs(p, q) == Rows(p, q, |p|, len);
      RowsValue(p, q, |p|, len, x);
      assert p[..|p|] == p;
    }
  }

  // ----- degrees -----

  lemma {:induction false} ConvAboveTop(p: seq<Fe>, q: seq<Fe>, k: int, n: nat)
    requires k - n + 1 >= |q|
    ensures Conv(p, q, k, n) == 0
  {
    if n > 0 {
      ConvAboveTop(p, q, k, n - 1);
      MulUnit(Coeff(p, n - 1));
      AddLaws(0, 0, 0);
    }
  }

  /** The product of non-zero polynomials needs no trimming: degrees add exactly. */
  lemma ProductDegree(p: seq<Fe>, q: seq<Fe>)
    requires Normal(p) && Normal(q) && p != [] && q != []
    ensures Trim(ProductCoeffs(p, q)) == ProductCoeffs(p, q)
    ensures DegreeOf(Trim(ProductCoeffs(p, q))) == DegreeOf(p) + DegreeOf(q)
  {
    var a, b := |p| - 1, |q| - 1;
    ConvAboveTop(p, q, a + b, a);
    AddLaws(0, FeMul(p[a], q[b]), 0);
    NoZeroDivisors(p[a], q[b]);
  }

  // ----- equality of polynomials is equality of functions on enough points -----

  /** Trimming picks one vector per polynomial. */
  lemma TrimCanonical(a: seq<Fe>, b: seq<Fe>)
    ensures Trim(a) == Trim(b) <==> forall i :: Coeff(a, i) == Coeff(b, i)
  {
    var s, t := Trim(a), Trim(b);
    assert forall i :: Coeff(a, i) == Coeff(s, i) && Coeff(b, i) == Coeff(t, i);
    if forall i :: Coeff(a, i) == Coeff(b, i) {
      assert |s| <= |t| by {
        assert s == [] || Coeff(t, |s| - 1) == s[|s| - 1] != 0;
      }
      assert |t| <= |s| by {
        assert t == [] || Coeff(s, |t| - 1) == t[|t| - 1] != 0;
      }
      assert forall i :: 0 <= i < |s| ==> s[i] == Coeff(s, i) == Coeff(t, i) == t[i];
    }
  }

  lemma LowTerm(s: seq<Fe>, x: Fe)
    requires s != []
    ensures Value(s, x) == FeAdd(s[0], FeMul(x, Value(s[1..], x)))
  {
    hide FeAdd, FeMul;
    var n, low, high := |s|, Padded([s[0]], |s|), Zeros(1) + s[1..];
    forall k | 0 <= k < n
      ensures s[k] == FeAdd(low[k], FeMul(1, high[k]))
    {
      MulUnit(high[k]);
      AddLaws(low[k], high[k], 0);
      AddLaws(high[k], 0, 0);
    }
    ValueLinear(low, high, 1, s, x);
    MulUnit(Value(high, x));
    PaddedValue([s[0]], n, x);
    ConstantValue(s[0], x);
    ShiftedValue(1, s[1..], x);
    assert Power(x, 1) == FeMul(x, Power(x, 0));
    MulUnit(x);
  }

  lemma ConstantValue(c: Fe, x: Fe)
    ensures Value([c], x) == c
  {
    assert Value([c][..0], x) == 0;
    MulUnit(c);
    AddLaws(0, c, 0);
    AddLaws(c, 0, 0);
  }

  /** Synthetic division of p by (x - a). */
  ghost function Quotient(p: seq<Fe>, a: Fe): (q: seq<Fe>)
    requires p != []
    ensures |q| == |p| - 1
    ensures q != [] ==> q[|q| - 1] == p[|p| - 1]
  {
    if |p| == 1 then [] else
      var r, rest := p[1..], Quotient(p[1..], a);
      MulUnit(a);
      AddLaws(r[|r| - 1], 0, 0);
      seq(|r|, k requires 0 <= k < |r| => FeAdd(r[k], FeMul(a, Coeff(rest, k))))
  }

  /** p(x) = p(a) + (x - a) * q(x) */
  lemma {:induction false} QuotientValue(p: seq<Fe>, a: Fe, x: Fe)
    requires p != []
    ensures Value(p, x) == FeAdd(Value(p, a), FeMul(FeSub(x, a), Value(Quotient(p, a), x)))
  {
    hide FeAdd, FeMul, FeSub;
    var d := FeSub(x, a);
    if |p| == 1 {
      assert p == [p[0]];
      ConstantValue(p[0], x);
      ConstantValue(p[0], a);
      MulUnit(d);
      AddLaws(p[0], 0, 0);
    } else {
      var r := p[1..];
      var rest := Quotient(r, a);
      QuotientValue(r, a, x);
      LowTerm(p, x);
      LowTerm(p, a);
      ValueLinear(r, Padded(rest, |r|), a, Quotient(p, a), x);
      PaddedValue(rest, |r|, x);
      SubLaws(x, a);
      QuotientStep(p[0], a, d, x, Value(r, a), Value(r, x), Value(rest, x));
    }
  }

  lemma QuotientStep(c: Fe, a: Fe, d: Fe, x: Fe, ra: Fe, rx: Fe, q: Fe)
    requires x == FeAdd(d, a) && rx == FeAdd(ra, FeMul(d, q))
    ensures FeAdd(c, FeMul(x, rx)) == FeAdd(FeAdd(c, FeMul(a, ra)), FeMul(d, FeAdd(rx, FeMul(a, q))))
  {
    hide FeAdd, FeMul;
    var drx, ara, adq := FeMul(d, rx), FeMul(a, ra), FeMul(a, FeMul(d, q));
    MulDistributes(rx, d, a);
    MulDistributes(a, ra, FeMul(d, q));
    MulDistributes(d, rx, FeMul(a, q));
    MulAssociates(d, a, q);
    MulAssociates(a, d, q);
    MulCommutes(a, d);
    AddLaws(c, ara, FeAdd(drx, adq));
    AddLaws(ara, drx, adq);
    AddLaws(drx, ara, adq);
  }

  /** A non-zero polynomial has at most as many roots as its degree. */
  lemma {:induction false} RootsBounded(p: seq<Fe>, roots: set<Fe>)
    requires Normal(p) && p != []
    requires forall a :: a in roots ==> Value(p, a) == 0
    ensures |roots| <= |p| - 1
    decreases |p|
  {
    if roots != {} {
      var a :| a in roots;
      if |p| == 1 {
        assert p == [p[0]];
        ConstantValue(p[0], a);
      } else {
        var q := Quotient(p, a);
        forall b | b in roots - {a}
          ensures Value(q, b) == 0
        {
          QuotientValue(p, a, b);
          AddLaws(0, FeMul(FeSub(b, a), Value(q, b)), 0);
          SubLaws(b, a);
          NoZeroDivisors(FeSub(b, a), Value(q, b));
        }
        RootsBounded(q, roots - {a});
      }
    }
  }

  ghost function Difference(p: seq<Fe>, q: seq<Fe>): (r: seq<Fe>) {
    seq(if |p| > |q| then |p| else |q|, k => FeAdd(Coeff(p, k), FeMul(FeNeg(1), Coeff(q, k))))
  }

  lemma DifferenceValue(p: seq<Fe>, q: seq<Fe>, x: Fe)
    ensures Value(Trim(Difference(p, q)), x) == 0 <==> Value(p, x) == Value(q, x)
  {
    hide FeAdd, FeMul, FeNeg;
    var r := Difference(p, q);
    TrimValue(r, x);
    ValueLinear(Padded(p, |r|), Padded(q, |r|), FeNeg(1), r, x);
    PaddedValue(p, |r|, x);
    PaddedValue(q, |r|, x);
    MinusOne(Value(p, x), Value(q, x));
  }

  lemma ZeroDifference(p: seq<Fe>, q: seq<Fe>)
    requires Normal(p) && Normal(q) && Trim(Difference(p, q)) == []
    ensures p == q
  {
    hide FeAdd, FeMul, FeNeg;
    var r := Difference(p, q);
    forall i
      ensures Coeff(p, i) == Coeff(q, i)
    {
      if 0 <= i < |r| {
        assert r[i] == 0;
        MinusOne(Coeff(p, i), Coeff(q, i));
      }
    }
    TrimCanonical(p, q);
  }

  /** Two polynomials that agree on more points than either has degree are equal. */
  lemma AgreementImpliesEquality(p: seq<Fe>, q: seq<Fe>, points: set<Fe>)
    requires Normal(p) && Normal(q) && |points| >= |p| && |points| >= |q|
    requires forall x :: x in points ==> Value(p, x) == Value(q, x)
    ensures p == q
  {
    var d := Trim(Difference(p, q));
    forall x | x in points
      ensures Value(d, x) == 0
    {
      DifferenceValue(p, q, x);
    }
    if d != [] {
      RootsBounded(d, points);
    }
    ZeroDifference(p, q);
  }

  lemma MinusOne(a: Fe, b: Fe)
    ensures FeAdd(a, FeMul(FeNeg(1), b)) == 0 <==> a == b
  {
    assert FeMul(FeNeg(1), b) == FeNeg(b) by {
      NumberTheory.RemainderUnique((P - 1) * b, P, if b == 0 then 0 else b - 1, FeNeg(b));
    }
    SubLaws(a, b);
  }
}
