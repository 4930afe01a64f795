/**
 The Goldilocks field: 64-bit words reduced modulo P = 2^64 - 2^32 + 1, with 128-bit intermediates.
 */
module Goldilocks {
  import opened Bytes
  import opened Options
  import opened NumberTheory
  import opened GoldilocksCertificate

  type u128 = x: nat | x < 0x1_0000_0000_0000_0000_0000_0000_0000_0000

  /** A field element: a word already reduced modulo P. */
  type Fe = x: nat | x < P

  const Generator: Fe := 7

  // The subset types make every definition below carry two obligations: the intermediate sum or
  // product fits in a u128, and the result is reduced.

  function New(value: u64): Fe {
    value % P
  }

  function FromU128(value: u128): Fe {
    value % P
  }

  function FeAdd(a: Fe, b: Fe): Fe {
    var sum: u128 := a + b;
    FromU128(sum)
  }

  function FeSub(a: Fe, b: Fe): Fe {
    if a >= b then a - b else
      var wrapped: u64 := P - b + a;
      wrapped
  }

  function FeMul(a: Fe, b: Fe): Fe {
    ProductFits(a, b);
    var product: u128 := a * b;
    FromU128(product)
  }

  function FeNeg(a: Fe): Fe {
    if a == 0 then a else P - a
  }

  lemma ProductFits(a: Fe, b: Fe)
    ensures 0 <= a * b < 0x1_0000_0000_0000_0000_0000_0000_0000_0000
  {
    MulMonotone(a, b, P);
  }

  lemma MulMonotone(a: nat, b: nat, m: nat)
    requires a <= m && b <= m
    ensures 0 <= a * b <= m * m
  {
    assert a * b + a * (m - b) == a * m;
    assert a * m + (m - a) * m == m * m;
  }

  // ----- the field laws -----

  lemma AddLaws(a: Fe, b: Fe, c: Fe)
    ensures FeAdd(a, b) == FeAdd(b, a)
    ensures FeAdd(FeAdd(a, b), c) == FeAdd(a, FeAdd(b, c))
    ensures FeAdd(a, 0) == a
  {
    hide FeAdd;
    SumReduced(a, b);
    SumReduced(b, a);
    SumReduced(b, c);
    SumReduced(FeAdd(a, b), c);
    SumReduced(a, FeAdd(b, c));
    SumReduced(a, 0);
  }

  /** One subtraction reduces a sum. */
  lemma SumReduced(a: Fe, b: Fe)
    ensures FeAdd(a, b) == if a + b < P then a + b else a + b - P
  {
  }

  /** Subtraction undoes addition, and negation is subtraction from zero. */
  lemma SubLaws(a: Fe, b: Fe)
    ensures FeAdd(FeSub(a, b), b) == a && FeSub(FeAdd(a, b), b) == a
    ensures FeAdd(a, FeNeg(a)) == 0
    ensures FeSub(a, b) == FeAdd(a, FeNeg(b))
    ensures FeSub(a, b) == 0 <==> a == b
  {
    hide FeAdd;
    SumReduced(FeSub(a, b), b);
    SumReduced(a, b);
    SumReduced(a, FeNeg(a));
    SumReduced(a, FeNeg(b));
  }

  lemma MulCommutes(a: Fe, b: Fe)
    ensures FeMul(a, b) == FeMul(b, a)
  {
    assert a * b == b * a;
  }

  lemma MulAssociates(a: Fe, b: Fe, c: Fe)
    ensures FeMul(FeMul(a, b), c) == FeMul(a, FeMul(b, c))
  {
    MulModAssoc(a, b, c, P);
  }

  lemma MulUnit(a: Fe)
    ensures FeMul(1, a) == a && FeMul(a, 1) == a && FeMul(0, a) == 0 && FeMul(a, 0) == 0
  {
  }

  lemma MulDistributes(a: Fe, b: Fe, c: Fe)
    ensures FeMul(a, FeAdd(b, c)) == FeAdd(FeMul(a, b), FeMul(a, c))
    ensures FeMul(FeAdd(b, c), a) == FeAdd(FeMul(b, a), FeMul(c, a))
  {
    var s := b + c;
    MulModLeft(s, a, P);
    assert s * a == b * a + c * a;
    AddModBoth(b * a, c * a);
    MulCommutes(a, FeAdd(b, c));
    MulCommutes(a, b);
    MulCommutes(a, c);
  }

  lemma AddModBoth(x: nat, y: nat)
    ensures (x % P + y % P) % P == (x + y) % P
  {
  }

  /** Words become field elements so that sums and products carry over; a reduced word is its own element. */
  lemma NewCarriesOver(a: u64, b: u64)
    ensures New(a) == a <==> a < P
    ensures a + b < 0x1_0000_0000_0000_0000 ==> New(a + b) == FeAdd(New(a), New(b))
    ensures a * b < 0x1_0000_0000_0000_0000 ==> New(a * b) == FeMul(New(a), New(b))
  {
    AddModBoth(a, b);
    MulModLeft(a, b, P);
    MulModLeft(b, a % P, P);
    assert a * b == b * a && (a % P) * b == b * (a % P) && (a % P) * (b % P) == (b % P) * (a % P);
  }

  // ----- exponentiation -----

  /** The meaning of exponentiation: repeated multiplication. */
  ghost function Power(a: Fe, e: nat): Fe {
    if e == 0 then 1 else FeMul(a, Power(a, e - 1))
  }

  lemma {:induction false} PowerIsPow(a: Fe, e: nat)
    ensures Power(a, e) == Pow(a, e, P)
  {
    if e > 0 {
      PowerIsPow(a, e - 1);
    }
  }

  lemma PowerAdd(a: Fe, x: nat, y: nat)
    ensures Power(a, x + y) == FeMul(Power(a, x), Power(a, y))
  {
    PowerIsPow(a, x);
    PowerIsPow(a, y);
    PowerIsPow(a, x + y);
    PowAdd(a, x, y, P);
  }

  lemma PowerOfSquare(a: Fe, e: nat)
    ensures Power(FeMul(a, a), e) == Power(a, 2 * e)
  {
    hide Pow;
    PowerIsPow(a, 2);
    assert Power(a, 1) == FeMul(a, 1);
    assert Power(a, 2) == FeMul(a, Power(a, 1));
    MulUnit(a);
    PowerIsPow(FeMul(a, a), e);
    PowerIsPow(a, 2 * e);
    PowMul(a, 2, e, P);
  }

  /** Square-and-multiply. */
  method PowBySquaring(a: Fe, exponent: u64) returns (result: Fe)
    ensures result == Power(a, exponent)
  {
    var base, exp := a, exponent;
    result := 1;
    MulUnit(Power(a, exponent));
    while exp > 0
      invariant FeMul(result, Power(base, exp)) == Power(a, exponent)
    {
      SquareStep(result, base, exp);
      if exp % 2 == 1 {
        result := FeMul(result, base);
      }
      base := FeMul(base, base);
      exp := exp / 2;
    }
    MulUnit(result);
  }

  /** One iteration keeps result * base^exp. */
  lemma SquareStep(result: Fe, base: Fe, exp: nat)
    requires exp > 0
    ensures exp % 2 == 0 ==> FeMul(result, Power(base, exp)) == FeMul(result, Power(FeMul(base, base), exp / 2))
    ensures exp % 2 == 1 ==>
              FeMul(result, Power(base, exp)) == FeMul(FeMul(result, base), Power(FeMul(base, base), exp / 2))
  {
    PowerOfSquare(base, exp / 2);
    MulAssociates(result, base, Power(base, exp - 1));
  }

  // ----- consequences of the certificate -----

  /** P is prime. */
  lemma ModulusIsPrime()
    ensures IsPrime(P)
  {
    hide *;
    Certificate();
    CertifiedPrime(P, 7, Factors);
  }

  /** Fermat's little theorem in the field. */
  lemma FieldFermat(a: Fe)
    requires a != 0
    ensures Power(a, P - 1) == 1
  {
    hide Pow, Power, Certifies;
    Certificate();
    FermatLittle(P, 7, Factors, a);
    PowerIsPow(a, P - 1);
  }

  lemma NoZeroDivisors(a: Fe, b: Fe)
    ensures FeMul(a, b) == 0 <==> a == 0 || b == 0
  {
    hide Pow, Certifies;
    MulUnit(a);
    MulUnit(b);
    if a != 0 && FeMul(a, b) == 0 {
      Certificate();
      Cancellation(P, 7, Factors, a, b);
    }
  }

  /** The inverse is a^(P - 2); it exists exactly for the non-zero elements. */
  method Inverse(a: Fe) returns (r: Option<Fe>)
    ensures r == None <==> a == 0
    ensures r.Some? ==> FeMul(a, r.value) == 1 && forall b: Fe :: FeMul(a, b) == 1 <==> b == r.value
  {
    if a == 0 {
      return None;
    }
    var inv := PowBySquaring(a, P - 2);
    FieldFermat(a);
    assert Power(a, P - 1) == FeMul(a, Power(a, P - 2));
    forall b: Fe
      ensures FeMul(a, b) == 1 <==> b == inv
    {
      InverseUnique(a, inv, b);
    }
    return Some(inv);
  }

  lemma InverseUnique(a: Fe, u: Fe, b: Fe)
    requires FeMul(a, u) == 1
    ensures FeMul(a, b) == 1 <==> b == u
  {
    if FeMul(a, b) == 1 {
      hide FeMul;
      MulAssociates(b, a, u);
      MulCommutes(a, b);
      MulUnit(u);
      MulUnit(b);
    }
  }

  /** 7 is a primitive root: the field's non-zero elements are its powers, and P - 1 is its exact order. */
  lemma GeneratorGenerates(a: Fe) returns (e: nat)
    requires a != 0
    ensures e < P - 1 && Power(Generator, e) == a
    ensures forall d: nat :: 0 < d < P - 1 ==> Power(Generator, d) != 1
  {
    hide Pow, Power, Certifies;
    Certificate();
    e := Logarithm(P, 7, Factors, a);
    PowerIsPow(7, e);
    forall d: nat | 0 < d < P - 1
      ensures Power(Generator, d) != 1
    {
      FullOrder(P, 7, Factors, d);
      PowerIsPow(7, d);
    }
  }

  /** The field is FFT-friendly: it has an element of order exactly 2^32. */
  lemma RootOfUnity() returns (w: Fe)
    ensures Power(w, 0x1_0000_0000) == 1
    ensures forall d: nat :: 0 < d < 0x1_0000_0000 ==> Power(w, d) != 1
  {
    hide Pow, Power, Certifies;
    Certificate();
    w := Pow(7, 0xFFFF_FFFF, P);
    PowMul(7, 0xFFFF_FFFF, 0x1_0000_0000, P);
    PowerHalf();
    PowerIsPow(w, 0x1_0000_0000);
    forall d: nat | 0 < d < 0x1_0000_0000
      ensures Power(w, d) != 1
    {
      PowMul(7, 0xFFFF_FFFF, d, P);
      PowerIsPow(w, d);
      FullOrder(P, 7, Factors, 0xFFFF_FFFF * d);
    }
  }
}
