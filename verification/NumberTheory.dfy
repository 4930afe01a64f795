/**
 Modular arithmetic over an arbitrary modulus, and Pratt certificates of primality.

 A certificate for n names a base g whose powers are shown to run through all of 1..n-1.
 That one fact gives primality of n, Fermat's little theorem modulo n and the claim that g is
 a primitive root, without assuming anything about primes.
 */
module NumberTheory {

  predicate Divides(d: nat, n: nat) {
    d > 0 && n % d == 0
  }

  ghost predicate IsPrime(n: nat) {
    2 <= n && forall d: nat :: 2 <= d < n ==> !Divides(d, n)
  }

  // ----- remainders -----

  lemma RemainderUnique(x: int, m: nat, k: int, r: nat)
    requires r < m && x == k * m + r
    ensures x % m == r && x / m == k
  {
    var d := x / m - k;
    assert x == (x / m) * m + x % m;
    assert d * m == r - x % m;
    MultipleApart(d, m);
  }

  lemma MultipleApart(d: int, m: nat)
    ensures d > 0 ==> d * m >= m
    ensures d < 0 ==> d * m <= 0 - m
  {
    if d > 1 {
      assert (d - 1) * m >= 0;
    } else if d < -1 {
      assert (-1 - d) * m >= 0;
    }
  }

  lemma MulModLeft(a: int, b: int, m: nat)
    requires m > 0
    ensures ((a % m) * b) % m == (a * b) % m
  {
    var y := (a % m) * b;
    assert a == (a / m) * m + a % m;
    assert y == (y / m) * m + y % m;
    assert a * b == ((a / m) * m) * b + y;
    assert ((a / m) * m) * b == ((a / m) * b) * m;
    assert a * b == ((a / m) * b + y / m) * m + y % m;
    RemainderUnique(a * b, m, (a / m) * b + y / m, y % m);
  }

  lemma MulModAssoc(a: int, b: int, c: int, m: nat)
    requires m > 0
    ensures (a * ((b * c) % m)) % m == (((a * b) % m) * c) % m
  {
    var bc := b * c;
    MulModLeft(bc, a, m);
    MulModLeft(a * b, c, m);
    assert a * (bc % m) == (bc % m) * a;
    assert bc * a == (a * b) * c;
  }

  lemma MultipleIsZero(k: int, m: nat)
    requires m > 0
    ensures (k * m) % m == 0
  {
    RemainderUnique(k * m, m, k, 0);
  }

  // ----- powers -----

  function Pow(g: nat, e: nat, m: nat): (r: nat)
    requires m > 1
    ensures r < m
  {
    if e == 0 then 1 else (g * Pow(g, e - 1, m)) % m
  }

  lemma {:induction false} PowAdd(g: nat, x: nat, y: nat, m: nat)
    requires m > 1
    ensures Pow(g, x + y, m) == (Pow(g, x, m) * Pow(g, y, m)) % m
  {
    var py := Pow(g, y, m);
    if x == 0 {
      MulModLeft(1, py, m);
      RemainderUnique(py, m, 0, py);
    } else {
      var px := Pow(g, x - 1, m);
      PowAdd(g, x - 1, y, m);
      MulModAssoc(g, px, py, m);
    }
  }

  lemma {:induction false} PowMul(g: nat, x: nat, y: nat, m: nat)
    requires m > 1
    ensures Pow(Pow(g, x, m), y, m) == Pow(g, x * y, m)
  {
    if y != 0 {
      PowMul(g, x, y - 1, m);
      assert x * y == x + x * (y - 1);
      PowAdd(g, x, x * (y - 1), m);
    }
  }

  lemma PowSwap(g: nat, x: nat, y: nat, m: nat)
    requires m > 1
    ensures Pow(g, x * y, m) == Pow(g, y * x, m)
  {
    assert x * y == y * x;
  }

  lemma {:induction false} PowOne(e: nat, m: nat)
    requires m > 1
    ensures Pow(1, e, m) == 1
  {
    if e != 0 {
      PowOne(e - 1, m);
      RemainderUnique(1, m, 0, 1);
    }
  }

  lemma {:induction false} PowOfMultiple(g: nat, o: nat, k: nat, m: nat)
    requires m > 1 && Pow(g, o, m) == 1
    ensures Pow(g, o * k, m) == 1
  {
    PowMul(g, o, k, m);
    PowOne(k, m);
  }

  // ----- divisibility -----

  lemma {:induction false} Bezout(a: nat, b: nat) returns (d: nat, u: int, v: int)
    requires a > 0
    ensures d > 0 && d == u * a + v * b
    ensures a % d == 0 && b % d == 0
    decreases b
  {
    if b == 0 {
      d, u, v := a, 1, 0;
      MultipleIsZero(1, a);
      MultipleIsZero(0, a);
    } else {
      var u', v';
      d, u', v' := Bezout(b, a % b);
      var q := a / b;
      assert a == q * b + a % b;
      u, v := v', u' - v' * q;
      assert v' * (a - q * b) == v' * a - (v' * q) * b;
      assert v' * q * b == v' * (q * b);
      assert d == u * a + v * b;
      DividesCombination(b, a % b, q, d);
    }
  }

  lemma DividesCombination(b: nat, r: nat, q: nat, d: nat)
    requires d > 0 && b % d == 0 && r % d == 0
    ensures (q * b + r) % d == 0
  {
    var kb, kr := b / d, r / d;
    assert b == kb * d && r == kr * d;
    assert q * b + r == (q * kb + kr) * d by {
      assert q * (kb * d) == (q * kb) * d;
    }
    MultipleIsZero(q * kb + kr, d);
  }

  /** A prime that does not divide m can be struck from any product that m divides. */
  lemma StrikePrime(q: nat, m: nat, k: nat)
    requires IsPrime(q) && m > 0 && m % q != 0 && (q * k) % m == 0
    ensures k % m == 0
  {
    var d, u, v := Bezout(q, m);
    assert d <= q by {
      assert q == (q / d) * d;
      MultipleApart(q / d, d);
    }
    assert d == q || !Divides(d, q) || d == 1;
    var w := (q * k) / m;
    assert q * k == w * m;
    assert k == k * (u * q + v * m);
    assert k * (u * q + v * m) == u * (q * k) + (v * k) * m;
    assert u * (w * m) == (u * w) * m;
    assert k == (u * w + v * k) * m;
    MultipleIsZero(u * w + v * k, m);
  }

  function Product(qs: seq<nat>): (r: nat) {
    if qs == [] then 1 else qs[0] * Product(qs[1..])
  }

  /** Every divisor above 1 of a product of primes is divisible by one of them. */
  lemma {:induction false} SomeFactorDivides(qs: seq<nat>, m: nat) returns (q: nat)
    requires forall i :: 0 <= i < |qs| ==> IsPrime(qs[i])
    requires m > 1 && Product(qs) % m == 0
    ensures q in qs && q > 0 && m % q == 0
  {
    if qs == [] {
      RemainderUnique(1, m, 0, 1);
      assert false;
    } else if m % qs[0] == 0 {
      q := qs[0];
    } else {
      StrikePrime(qs[0], m, Product(qs[1..]));
      q := SomeFactorDivides(qs[1..], m);
    }
  }

  // ----- the order of a base -----

  ghost predicate IsOrder(g: nat, o: nat, m: nat)
    requires m > 1
  {
    o > 0 && Pow(g, o, m) == 1 && forall e: nat :: 0 < e < o ==> Pow(g, e, m) != 1
  }

  lemma {:induction false} OrderExists(g: nat, d: nat, m: nat) returns (o: nat)
    requires m > 1 && d > 0 && Pow(g, d, m) == 1
    ensures o <= d && IsOrder(g, o, m)
  {
    if e: nat :| 0 < e < d && Pow(g, e, m) == 1 {
      o := OrderExists(g, e, m);
    } else {
      o := d;
    }
  }

  lemma OrderDivides(g: nat, o: nat, e: nat, m: nat)
    requires m > 1 && IsOrder(g, o, m) && Pow(g, e, m) == 1
    ensures e % o == 0
  {
    var k, r := e / o, e % o;
    assert e == o * k + r;
    PowOfMultiple(g, o, k, m);
    PowAdd(g, o * k, r, m);
    MulModLeft(1, Pow(g, r, m), m);
    RemainderUnique(Pow(g, r, m), m, 0, Pow(g, r, m));
  }

  // ----- certificates -----

  /** qs is the prime factorisation of n - 1, and no proper divisor of n - 1 is an exponent of g. */
  ghost predicate Certifies(n: nat, g: nat, qs: seq<nat>) {
    && n >= 2
    && Product(qs) == n - 1
    && Pow(g, n - 1, n) == 1
    && forall i :: 0 <= i < |qs| ==> IsPrime(qs[i]) && !IsExponent(g, qs[i], n)
  }

  /** (n - 1) / q is an exponent of g. */
  predicate IsExponent(g: nat, q: nat, n: nat)
    requires n > 1
  {
    q > 0 && Pow(g, (n - 1) / q, n) == 1
  }

  /** An order below n - 1 divides (n - 1) / q for one of the prime factors q of n - 1. */
  lemma ShortOrder(n: nat, g: nat, qs: seq<nat>, o: nat) returns (q: nat)
    requires n >= 2 && Product(qs) == n - 1 && forall i :: 0 <= i < |qs| ==> IsPrime(qs[i])
    requires IsOrder(g, o, n) && o < n - 1 && Pow(g, n - 1, n) == 1
    ensures q in qs && IsExponent(g, q, n)
  {
    hide Pow;
    OrderDivides(g, o, n - 1, n);
    var c := (n - 1) / o;
    assert n - 1 == c * o;
    MultipleIsZero(o, c);
    q := SomeFactorDivides(qs, c);
    CofactorOf(n - 1, o, c, q);
    PowOfMultiple(g, o, c / q, n);
  }

  lemma FullOrder(n: nat, g: nat, qs: seq<nat>, d: nat)
    requires Certifies(n, g, qs) && 0 < d < n - 1
    ensures Pow(g, d, n) != 1
  {
    if Pow(g, d, n) == 1 {
      var o := OrderExists(g, d, n);
      var _ := ShortOrder(n, g, qs, o);
    }
  }

  lemma CofactorOf(n: nat, o: nat, c: nat, q: nat)
    requires n == c * o && q > 0 && c % q == 0
    ensures n / q == o * (c / q)
  {
    assert c == (c / q) * q;
    assert n == (o * (c / q)) * q;
    RemainderUnique(n, q, o * (c / q), 0);
  }

  lemma EqualPowers(g: nat, i: nat, j: nat, e: nat, n: nat)
    requires n >= 2 && i <= j && i <= e && Pow(g, e, n) == 1 && Pow(g, i, n) == Pow(g, j, n)
    ensures Pow(g, j - i, n) == 1
  {
    PowAdd(g, i, e - i, n);
    PowAdd(g, j, e - i, n);
    PowAdd(g, j - i, e, n);
    RemainderUnique(Pow(g, j - i, n), n, 0, Pow(g, j - i, n));
  }

  lemma PowersDistinct(n: nat, g: nat, qs: seq<nat>, i: nat, j: nat)
    requires Certifies(n, g, qs) && i < j < n - 1
    ensures Pow(g, i, n) != Pow(g, j, n)
  {
    if Pow(g, i, n) == Pow(g, j, n) {
      EqualPowers(g, i, j, n - 1, n);
      FullOrder(n, g, qs, j - i);
    }
  }

  lemma PowersNonZero(n: nat, g: nat, qs: seq<nat>, k: nat)
    requires Certifies(n, g, qs) && k <= n - 1
    ensures Pow(g, k, n) != 0
  {
    PowAdd(g, k, n - 1 - k, n);
    MultipleIsZero(0, n);
  }

  // ----- the powers of a certified base are all of 1..n-1 -----

  ghost function Powers(g: nat, k: nat, n: nat): set<nat>
    requires n > 1
  {
    if k == 0 then {} else Powers(g, k - 1, n) + {Pow(g, k - 1, n)}
  }

  lemma {:induction false} PowersMember(g: nat, k: nat, n: nat, a: nat) returns (e: nat)
    requires n > 1 && a in Powers(g, k, n)
    ensures e < k && Pow(g, e, n) == a
  {
    if a == Pow(g, k - 1, n) {
      e := k - 1;
    } else {
      e := PowersMember(g, k - 1, n, a);
    }
  }

  lemma {:induction false} PowersSize(n: nat, g: nat, qs: seq<nat>, k: nat)
    requires Certifies(n, g, qs) && k <= n - 1
    ensures |Powers(g, k, n)| == k && Powers(g, k, n) <= NonZero(n)
  {
    hide Pow, Certifies;
    if k > 0 {
      NonZeroSize(n);
      PowersSize(n, g, qs, k - 1);
      PowersNonZero(n, g, qs, k - 1);
      if Pow(g, k - 1, n) in Powers(g, k - 1, n) {
        var e := PowersMember(g, k - 1, n, Pow(g, k - 1, n));
        PowersDistinct(n, g, qs, e, k - 1);
      }
    }
  }

  ghost function NonZero(n: nat): set<nat> {
    if n <= 1 then {} else NonZero(n - 1) + {n - 1}
  }

  lemma {:induction false} NonZeroSize(n: nat)
    requires n > 0
    ensures |NonZero(n)| == n - 1
    ensures forall a: nat :: a in NonZero(n) <==> 0 < a < n
  {
    if n > 1 {
      NonZeroSize(n - 1);
    }
  }

  lemma SubsetOfSameSize<T>(a: set<T>, b: set<T>)
    requires a <= b && |a| == |b|
    ensures a == b
  {
    assert b == a + (b - a);
  }

  /** The discrete logarithm: every non-zero residue is a power of a certified base. */
  lemma Logarithm(n: nat, g: nat, qs: seq<nat>, a: nat) returns (e: nat)
    requires Certifies(n, g, qs) && 0 < a < n
    ensures e < n - 1 && Pow(g, e, n) == a
  {
    PowersSize(n, g, qs, n - 1);
    NonZeroSize(n);
    SubsetOfSameSize(Powers(g, n - 1, n), NonZero(n));
    e := PowersMember(g, n - 1, n, a);
  }

  /** Fermat's little theorem for a certified modulus. */
  lemma FermatLittle(n: nat, g: nat, qs: seq<nat>, a: nat)
    requires Certifies(n, g, qs) && 0 < a < n
    ensures Pow(a, n - 1, n) == 1
  {
    var e := Logarithm(n, g, qs, a);
    PowMul(g, e, n - 1, n);
    PowSwap(g, e, n - 1, n);
    PowOfMultiple(g, n - 1, e, n);
  }

  lemma CancelUnit(a: int, u: int, b: int, n: nat)
    requires n > 1 && (a * u) % n == 1 && (a * b) % n == 0
    ensures b % n == 0
  {
    var au, ab := a * u, a * b;
    MulModLeft(au, b, n);
    MulModLeft(ab, u, n);
    assert au * b == ab * u;
  }

  /** A certified modulus has no zero divisors. */
  lemma Cancellation(n: nat, g: nat, qs: seq<nat>, a: nat, b: int)
    requires Certifies(n, g, qs) && 0 < a < n && (a * b) % n == 0
    ensures b % n == 0
  {
    FermatLittle(n, g, qs, a);
    CancelUnit(a, Pow(a, n - 2, n), b, n);
  }

  /** Soundness of certificates. */
  lemma CertifiedPrime(n: nat, g: nat, qs: seq<nat>)
    requires Certifies(n, g, qs)
    ensures IsPrime(n)
  {
    forall d: nat | 2 <= d < n
      ensures !Divides(d, n)
    {
      if Divides(d, n) {
        var c := n / d;
        ProperCofactor(n, d, c);
        MultipleIsZero(1, n);
        Cancellation(n, g, qs, d, c);
        RemainderUnique(c, n, 0, c);
      }
    }
  }

  lemma ProperCofactor(n: nat, d: nat, c: nat)
    requires 2 <= d < n && n % d == 0 && c == n / d
    ensures 0 < c < n && d * c == n
  {
    assert n == d * c;
    assert n == c + (d - 1) * c;
    MultipleApart(d - 1, c);
  }
}
