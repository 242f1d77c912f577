/** Divisibility, primes, and the uniqueness of prime factorisations. */
module Primes {

  predicate Divides(d: nat, n: nat) {
    d > 0 && n % d == 0
  }

  ghost predicate Prime(p: nat) {
    p >= 2 && forall m: nat :: 2 <= m < p ==> !Divides(m, p)
  }

  ghost predicate AllPrime(ps: seq<nat>) {
    forall i :: 0 <= i < |ps| ==> Prime(ps[i])
  }

  predicate Sorted(ps: seq<nat>) {
    forall i, j :: 0 <= i < j < |ps| ==> ps[i] <= ps[j]
  }

  function Product(ps: seq<nat>): nat {
    if ps == [] then 1 else ps[0] * Product(ps[1..])
  }

  // ---------- Divisibility ----------

  lemma DivideExactly(d: nat, n: nat)
    requires Divides(d, n)
    ensures n == d * (n / d)
  {
  }

  lemma MultipleIsDivided(d: nat, k: nat)
    requires d > 0
    ensures Divides(d, d * k) && (d * k) / d == k
  {
    UniqueQuotient(d, k, 0, d * k);
  }

  lemma MultipleBounds(d: int, e: int)
    requires d > 0
    ensures e >= 1 ==> d * e >= d
    ensures e <= -1 ==> d * e <= -d
    ensures e == 0 ==> d * e == 0
  {
  }

  /** Division with remainder has one answer. */
  lemma UniqueQuotient(d: nat, q: nat, r: nat, n: nat)
    requires d > 0 && n == d * q + r && r < d
    ensures n / d == q && n % d == r
  {
    var e: int := q - n / d;
    assert d * e == d * q - d * (n / d);
    assert d * e == n % d - r;
    MultipleBounds(d, e);
  }

  lemma DividesThrough(a: nat, b: nat, c: nat)
    requires Divides(a, b)
    ensures Divides(a, b * c)
  {
    DivideExactly(a, b);
    assert b * c == a * ((b / a) * c);
    MultipleIsDivided(a, (b / a) * c);
  }

  lemma DividesTransitively(a: nat, b: nat, c: nat)
    requires Divides(a, b) && Divides(b, c)
    ensures Divides(a, c)
  {
    DivideExactly(b, c);
    DividesThrough(a, b, c / b);
  }

  lemma DividesDifference(a: nat, b: nat, c: nat)
    requires Divides(a, b) && Divides(a, c) && c <= b
    ensures Divides(a, b - c)
  {
    DivideExactly(a, b);
    DivideExactly(a, c);
    assert b - c == a * (b / a - c / a);
    MultipleBounds(a, b / a - c / a);
    MultipleIsDivided(a, b / a - c / a);
  }

  // ---------- Euclid's lemma ----------

  /** A prime dividing a product divides one of the factors.  The descent takes
      the remainder of the prime by the factor that it does not divide. */
  lemma {:induction false} EuclidBelow(p: nat, a: nat, b: nat)
    requires Prime(p) && 0 < a < p && Divides(p, a * b)
    ensures Divides(p, b)
    decreases a
  {
    if a > 1 {
      var q, r := p / a, p % a;
      assert !Divides(a, p);
      assert p == a * q + r;
      assert p * b == (a * b) * q + r * b;
      DividesThrough(p, a * b, q);
      MultipleIsDivided(p, b);
      assert r * b == p * b - (a * b) * q;
      assert r * b >= 0;
      DividesDifference(p, p * b, (a * b) * q);
      EuclidBelow(p, r, b);
    }
  }

  lemma Euclid(p: nat, a: nat, b: nat)
    requires Prime(p) && Divides(p, a * b) && !Divides(p, a)
    ensures Divides(p, b)
  {
    var q, r := a / p, a % p;
    assert a == p * q + r;
    assert a * b == p * (q * b) + r * b;
    MultipleIsDivided(p, q * b);
    assert r * b >= 0;
    DividesDifference(p, a * b, p * (q * b));
    assert a * b - p * (q * b) == r * b;
    EuclidBelow(p, r, b);
  }

  lemma {:induction false} PrimeOfProductIsListed(p: nat, ps: seq<nat>)
    requires Prime(p) && AllPrime(ps) && Divides(p, Product(ps))
    ensures p in ps
  {
    if ps != [] {
      if Divides(p, ps[0]) {
        assert Prime(ps[0]);
        DividesAtMost(p, ps[0]);
      } else {
        Euclid(p, ps[0], Product(ps[1..]));
        PrimeOfProductIsListed(p, ps[1..]);
      }
    }
  }

  lemma DividesAtMost(d: nat, n: nat)
    requires Divides(d, n) && n > 0
    ensures d <= n
  {
    DivideExactly(d, n);
    assert n / d >= 1;
  }

  // ---------- Unique factorisation ----------

  lemma {:induction false} ProductIsPositive(ps: seq<nat>)
    requires AllPrime(ps)
    ensures Product(ps) >= 1 && (ps != [] ==> Product(ps) >= 2)
  {
    if ps != [] {
      ProductIsPositive(ps[1..]);
      assert Prime(ps[0]);
      assert ps[0] * Product(ps[1..]) >= ps[0];
    }
  }

  lemma HeadAtMost(a: seq<nat>, b: seq<nat>)
    requires AllPrime(a) && AllPrime(b) && Sorted(b) && a != [] && b != []
    requires Product(a) == Product(b)
    ensures b[0] <= a[0]
  {
    assert Prime(a[0]);
    MultipleIsDivided(a[0], Product(a[1..]));
    PrimeOfProductIsListed(a[0], b);
  }

  /** There is only one sorted list of primes with a given product. */
  lemma {:induction false} FactorisationIsUnique(a: seq<nat>, b: seq<nat>)
    requires AllPrime(a) && Sorted(a) && AllPrime(b) && Sorted(b)
    requires Product(a) == Product(b)
    ensures a == b
  {
    ProductIsPositive(a);
    ProductIsPositive(b);
    if a != [] && b != [] {
      HeadAtMost(a, b);
      HeadAtMost(b, a);
      assert Prime(a[0]);
      MultipleIsDivided(a[0], Product(a[1..]));
      MultipleIsDivided(a[0], Product(b[1..]));
      FactorisationIsUnique(a[1..], b[1..]);
      assert a == [a[0]] + a[1..] && b == [b[0]] + b[1..];
    }
  }

  lemma {:induction false} ProductAppend(ps: seq<nat>, p: nat)
    ensures Product(ps + [p]) == Product(ps) * p
  {
    if ps == [] {
      assert ([] + [p])[1..] == [];
    } else {
      assert (ps + [p])[1..] == ps[1..] + [p];
      ProductAppend(ps[1..], p);
    }
  }
}
