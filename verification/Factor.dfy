/**
 The factor program's trial division, in the unsigned 64-bit arithmetic it
 uses.  The square-root routine `root` is any function whose answer is at
 least the integer square root, so nothing depends on how it rounds.
 */
module Factor {
  import opened Primes

  const MODULUS: nat := 0x1_0000_0000_0000_0000

  /** The value an unsigned 64-bit computation leaves. */
  function Wrap(x: int): nat {
    x % MODULUS
  }

  /** `r` is at least the integer square root of `k`, and fits with one to spare. */
  predicate AtLeastRoot(r: nat, k: nat) {
    k < (r + 1) * (r + 1) && r + 1 < MODULUS
  }

  predicate AtMostRoot(r: nat, k: nat) {
    r * r <= k
  }

  /** The root routine's answer is large enough for every 64-bit number. */
  ghost predicate CoversRoots(root: nat -> nat) {
    forall k: nat :: k < MODULUS ==> AtLeastRoot(root(k), k)
  }

  ghost predicate Monotone(root: nat -> nat) {
    forall j: nat, k: nat :: j <= k ==> root(j) <= root(k)
  }

  ghost predicate Exact(root: nat -> nat) {
    forall k: nat :: k < MODULUS ==> AtMostRoot(root(k), k)
  }

  function Log2(n: nat): nat {
    if n < 2 then 0 else 1 + Log2(n / 2)
  }

  ghost predicate NoDivisorBelow(n: nat, d: nat) {
    forall m: nat :: 2 <= m < d ==> !Divides(m, n)
  }

  ghost predicate IsFactorisation(ps: seq<nat>, number: nat) {
    AllPrime(ps) && Sorted(ps) && Product(ps) == number
  }

  // ---------- Square roots ----------

  /** The integer square root, one of the routines allowed for. */
  function Isqrt(n: nat): (r: nat)
    ensures r * r <= n < (r + 1) * (r + 1)
  {
    if n == 0 then 0
    else
      var r := Isqrt(n - 1);
      SquareGrows(r);
      if (r + 1) * (r + 1) <= n then r + 1 else r
  }

  lemma SquareGrows(r: nat)
    ensures (r + 1) * (r + 1) < (r + 2) * (r + 2)
  {
  }

  lemma IsqrtIsARootRoutine()
    ensures CoversRoots(Isqrt) && Monotone(Isqrt) && Exact(Isqrt)
  {
    var root: nat -> nat := Isqrt;
    forall k: nat | k < MODULUS ensures AtLeastRoot(root(k), k) && AtMostRoot(root(k), k) {
      IsqrtFits(k);
    }
    forall j: nat, k: nat | j <= k ensures root(j) <= root(k) {
      IsqrtMonotone(j, k);
    }
  }

  lemma IsqrtFits(k: nat)
    requires k < MODULUS
    ensures AtLeastRoot(Isqrt(k), k) && AtMostRoot(Isqrt(k), k)
  {
    IsqrtIsSmall(Isqrt(k), k);
  }

  lemma IsqrtIsSmall(r: nat, k: nat)
    requires r * r <= k
    ensures k >= 2 ==> r < k
    ensures k < 2 ==> r <= 1
  {
    if r >= 2 { assert r * r >= 2 * r; }
  }

  lemma {:induction false} IsqrtMonotone(j: nat, k: nat)
    requires j <= k
    ensures Isqrt(j) <= Isqrt(k)
  {
    if j < k { IsqrtMonotone(j, k - 1); }
  }

  /** With an exact root no prime is used up, so that what the loop leaves is
      always the largest prime and the guard on it never decides anything. */
  lemma ExactRootsNeverUseUp(printed: seq<nat>, number: nat, root: nat -> nat)
    requires IsFactorisation(printed, number) && printed != [] && number < MODULUS && Exact(root)
    ensures !UsedUp(printed, root)
  {
    PrimesAreAtMostProduct(printed);
    var p := printed[|printed| - 1];
    IsqrtIsSmall(root(p), p);
  }

  lemma {:induction false} PrimesAreAtMostProduct(ps: seq<nat>)
    requires AllPrime(ps) && ps != []
    ensures 2 <= ps[|ps| - 1] <= Product(ps)
  {
    var n := |ps| - 1;
    assert ps == ps[..n] + [ps[n]];
    assert Prime(ps[n]);
    ProductAppend(ps[..n], ps[n]);
    ProductIsPositive(ps[..n]);
    assert Product(ps[..n]) * ps[n] >= ps[n];
  }

  // ---------- Steps of the loop ----------

  /** The first divisor met is prime, and what is left has no smaller divisor. */
  lemma FirstDivisor(n: nat, d: nat)
    requires n > 0 && d >= 2 && NoDivisorBelow(n, d) && Divides(d, n)
    ensures Prime(d) && 0 < n / d < n && NoDivisorBelow(n / d, d)
  {
    DivideExactly(d, n);
    forall m: nat | 2 <= m < d ensures !Divides(m, d) {
      if Divides(m, d) { DividesTransitively(m, d, n); }
    }
    assert (n / d) * d == n;
    forall m: nat | 2 <= m < d ensures !Divides(m, n / d) {
      if Divides(m, n / d) { DividesThrough(m, n / d, d); }
    }
  }

  /** A number without divisors up to its square root is prime. */
  lemma NothingUpToRoot(n: nat, d: nat)
    requires n >= 2 && NoDivisorBelow(n, d) && n < d * d
    ensures Prime(n) && d <= n
  {
    forall m: nat | 2 <= m < n ensures !Divides(m, n) {
      if m >= d && Divides(m, n) {
        DivideExactly(m, n);
        var k := n / m;
        LargeProduct(m, k, d);
        assert n == k * m && k >= 2 by { SmallQuotient(m, n); }
        MultipleIsDivided(k, m);
      }
    }
    SelfDivides(n);
  }

  lemma SelfDivides(n: nat)
    requires n > 0
    ensures Divides(n, n)
  {
  }

  lemma LargeProduct(m: nat, k: nat, d: nat)
    requires m >= d
    ensures k >= d ==> m * k >= d * d
  {
    if k >= d { assert m * k >= d * k >= d * d; }
  }

  lemma SmallQuotient(m: nat, n: nat)
    requires 0 < m < n && n == m * (n / m)
    ensures n / m >= 2
  {
  }

  lemma {:induction false} LogDrops(n: nat, d: nat)
    requires n > 0 && d >= 2 && Divides(d, n)
    ensures Log2(n / d) + 1 <= Log2(n)
  {
    DivideExactly(d, n);
    var q := n / d;
    assert n >= 2 * q && q >= 1;
    LogMonotone(q, n / 2);
  }

  lemma {:induction false} LogMonotone(a: nat, b: nat)
    requires a <= b
    ensures Log2(a) <= Log2(b)
  {
    if a >= 2 { LogMonotone(a / 2, b / 2); }
  }

  lemma RootBelow(root: nat -> nat, n: nat, d: nat)
    requires CoversRoots(root) && n < MODULUS && d > root(n)
    ensures n < d * d
  {
    assert n < (root(n) + 1) * (root(n) + 1) <= d * d;
  }

  // ---------- The program ----------

  /** Quotient and remainder as the loop computes them. */
  method Divide(n: nat, d: nat) returns (q: nat, r: nat)
    requires 0 < n < MODULUS && 2 <= d < MODULUS
    ensures q == n / d && (r == 0 <==> Divides(d, n))
  {
    q := n / d;
    r := Wrap(n - Wrap(d * q));
    NoWrap(n, d);
  }

  /** The numbers printed for `number`, and what the loop leaves of it.  `steps`
      counts the iterations. */
  method FactorLine(number: nat, root: nat -> nat) returns (printed: seq<nat>, rest: nat, ghost steps: nat)
    requires number < MODULUS && CoversRoots(root)
    ensures number < 2 ==> printed == [number]
    ensures number >= 2 ==>
      && printed != [] && IsFactorisation(printed, number)
      && (forall ps :: IsFactorisation(ps, number) ==> ps == printed)
      && (rest == 1 || rest == printed[|printed| - 1])
      && (rest == 1 <==> UsedUp(printed, root))
    ensures number >= 2 && Monotone(root) ==> steps + 1 <= root(number) + Log2(number)
  {
    steps := 0;
    if number < 2 {
      return [number], number, 0;
    }
    var n := number;
    var sqrtn := root(n);
    var d := 2;
    printed := [];
    while d <= sqrtn
      invariant 0 < n <= number && sqrtn == root(n)
      invariant 2 <= d < MODULUS
      invariant Found(printed, n, d, number)
      invariant NoDivisorBelow(n, d)
      invariant n == 1 ==> UsedUp(printed, root)
      invariant steps == d - 2 + |printed|
      invariant |printed| + Log2(n) <= Log2(number)
      invariant Monotone(root) ==> d <= root(number) + 1
      decreases n, sqrtn + 1 - d
    {
      var q, r := Divide(n, d);
      if r == 0 {
        DivideOut(printed, n, d, number);
        printed := printed + [d];
        n := q;
        sqrtn := root(n);
        WrapSmall(d - 1);
        d := Wrap(d - 1);
      } else {
        PassDivisor(printed, n, d, number);
      }
      WrapSmall(d + 1);
      d := Wrap(d + 1);
      steps := steps + 1;
    }
    rest := n;
    if n != 1 {
      LastPrime(printed, n, d, number, root);
      printed := printed + [n];
    }
    OnlyOne(printed, number);
  }

  /** No other sorted list of primes could have been printed. */
  lemma OnlyOne(printed: seq<nat>, number: nat)
    requires IsFactorisation(printed, number)
    ensures forall ps :: IsFactorisation(ps, number) ==> ps == printed
  {
    forall ps | IsFactorisation(ps, number) ensures ps == printed {
      FactorisationIsUnique(ps, printed);
    }
  }

  /** `printed` lists, in order, primes up to `d`, and `n` is what is left. */
  ghost predicate Found(printed: seq<nat>, n: nat, d: nat, number: nat) {
    && AllPrime(printed) && Sorted(printed) && Product(printed) * n == number
    && forall i :: 0 <= i < |printed| ==> printed[i] <= d
  }

  /** The root routine is so generous that the loop reached the last prime. */
  predicate UsedUp(printed: seq<nat>, root: nat -> nat) {
    printed != [] && root(printed[|printed| - 1]) >= printed[|printed| - 1]
  }

  lemma FoundOne(printed: seq<nat>, n: nat, d: nat, number: nat)
    requires Prime(d) && n > 0 && Divides(d, n)
    requires AllPrime(printed) && Sorted(printed) && Product(printed) * n == number
    requires forall i :: 0 <= i < |printed| ==> printed[i] <= d
    ensures Found(printed + [d], n / d, d, number)
  {
    ProductAppend(printed, d);
    KeepsProduct(Product(printed), n, d, number);
  }

  /** A number that does not divide what is left is passed over. */
  lemma PassDivisor(printed: seq<nat>, n: nat, d: nat, number: nat)
    requires Found(printed, n, d, number) && d > 0 && NoDivisorBelow(n, d) && !Divides(d, n)
    ensures Found(printed, n, d + 1, number) && NoDivisorBelow(n, d + 1)
  {
  }

  /** What one division does to all that the loop keeps. */
  lemma DivideOut(printed: seq<nat>, n: nat, d: nat, number: nat)
    requires Found(printed, n, d, number) && n > 0 && d >= 2 && NoDivisorBelow(n, d) && Divides(d, n)
    ensures 0 < n / d < n && NoDivisorBelow(n / d, d) && (n / d == 1 ==> n == d)
    ensures Found(printed + [d], n / d, d, number)
    ensures Log2(n / d) + 1 <= Log2(n)
  {
    FirstDivisor(n, d);
    LogDrops(n, d);
    FoundOne(printed, n, d, number);
    DivideExactly(d, n);
  }

  /** What the loop leaves, if more than one, is the largest prime. */
  lemma LastPrime(printed: seq<nat>, n: nat, d: nat, number: nat, root: nat -> nat)
    requires Found(printed, n, d, number) && 2 <= n < MODULUS && NoDivisorBelow(n, d)
    requires CoversRoots(root) && root(n) < d
    ensures Found(printed + [n], 1, n, number) && root(n) < n
  {
    RootBelow(root, n, d);
    NothingUpToRoot(n, d);
    SelfDivides(n);
    FoundOne(printed, n, n, number);
  }

  lemma WrapSmall(x: int)
    requires 0 <= x < MODULUS
    ensures Wrap(x) == x
  {
  }

  /** Multiplying the quotient back never exceeds the number. */
  lemma NoWrap(n: nat, d: nat)
    requires 0 < n < MODULUS && 2 <= d < MODULUS
    ensures Wrap(n - Wrap(d * (n / d))) == n % d
  {
    var back := d * (n / d);
    assert back + n % d == n;
    WrapSmall(back);
    WrapSmall(n - back);
  }

  lemma KeepsProduct(p: nat, n: nat, d: nat, number: nat)
    requires p * n == number && Divides(d, n)
    ensures (p * d) * (n / d) == number
  {
    DivideExactly(d, n);
    assert (p * d) * (n / d) == p * (d * (n / d));
  }
}
