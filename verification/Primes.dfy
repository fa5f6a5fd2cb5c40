// The two prime generators of test_code/python_test: the sieve of EraPrime.py and
// the factorial test of IbnPrime.py.
module Primes {

  predicate Divides(d: int, n: int)
    requires d != 0
  {
    n % d == 0
  }

  ghost predicate IsPrime(n: int) {
    2 <= n && forall d :: 2 <= d < n ==> !Divides(d, n)
  }

  // The primes below n, in order.
  ghost function PrimesBelow(n: int): seq<int>
    decreases n
  {
    if n <= 2 then []
    else PrimesBelow(n - 1) + if IsPrime(n - 1) then [n - 1] else []
  }

  lemma {:induction false} PrimesBelowLists(n: int)
    ensures forall x :: x in PrimesBelow(n) <==> IsPrime(x) && x < n
    ensures Increasing(PrimesBelow(n))
    decreases n
  {
    if n > 2 {
      PrimesBelowLists(n - 1);
      var ps := PrimesBelow(n - 1);
      assert forall i :: 0 <= i < |ps| ==> ps[i] in ps;
      assert Increasing(ps + [n - 1]);
    }
  }

  ghost predicate Increasing(xs: seq<int>) {
    forall i, j :: 0 <= i < j < |xs| ==> xs[i] < xs[j]
  }

  // math.factorial
  function Factorial(n: nat): (f: nat)
    ensures f >= 1
  {
    if n == 0 then 1 else n * Factorial(n - 1)
  }

  // ---- Divisibility ------------------------------------------------------------------------

  lemma DividesProduct(d: int, a: int, b: int)
    requires d > 0 && Divides(d, a)
    ensures Divides(d, a * b)
  {
    var k := a / d;
    assert a * b == d * (k * b);
    MultipleOf(d, k * b);
  }

  lemma MultipleOf(d: int, k: int)
    requires d > 0
    ensures (d * k) % d == 0
  {
    ModShift(0, k, d);
  }

  // Adding a multiple of d does not change the remainder.
  lemma {:induction false} ModShift(x: int, k: int, d: int)
    requires d > 0
    ensures (x + d * k) % d == x % d
  {
    var q, q' := x / d, (x + d * k) / d;
    var r, r' := x % d, (x + d * k) % d;
    assert d * (q' - q - k) == r - r';
    SmallMultiple(d, q' - q - k, r - r');
  }

  lemma SmallMultiple(d: int, k: int, x: int)
    requires d > 0 && d * k == x && -d < x < d
    ensures k == 0 && x == 0
  {
    ProductIsLarge(d, k);
  }

  lemma ProductIsLarge(d: int, k: int)
    requires d > 0
    ensures k >= 1 ==> d * k >= d
    ensures k <= -1 ==> d * k <= -d
  {}

  lemma DividesTransitive(d: int, m: int, n: int)
    requires d > 0 && m > 0 && Divides(d, m) && Divides(m, n)
    ensures Divides(d, n)
  {
    assert n == m * (n / m);
    DividesProduct(d, m, n / m);
  }

  // A number with a divisor has a prime divisor.
  lemma {:induction false} PrimeDivisor(n: int, d: int) returns (p: int)
    requires 2 <= d < n && Divides(d, n)
    ensures IsPrime(p) && p < n && Divides(p, n)
    decreases d
  {
    if IsPrime(d) {
      p := d;
    } else {
      var e :| 2 <= e < d && Divides(e, d);
      DividesTransitive(e, d, n);
      p := PrimeDivisor(n, e);
    }
  }

  // ---- The sieve ----------------------------------------------------------------------------

  // Number m has no prime divisor below k apart from itself.
  ghost predicate Unmarked(m: int, k: int) {
    forall p :: IsPrime(p) && p < k && p < m ==> !Divides(p, m)
  }

  lemma UnmarkedIsPrime(m: int)
    requires 2 <= m
    ensures Unmarked(m, m) <==> IsPrime(m)
  {
    if Unmarked(m, m) && !IsPrime(m) {
      var d :| 2 <= d < m && Divides(d, m);
      var p := PrimeDivisor(m, d);
    }
  }

  // The number at index k is a multiple of num.
  predicate IsMultiple(num: int, k: int) {
    num >= 2 && Divides(num, k + 2)
  }

  // The inner loop: index i carries num, and its later multiples are cleared.
  method ClearMultiples(isPrime: array<bool>, i: nat, num: int)
    requires num == i + 2
    modifies isPrime
    ensures forall k :: 0 <= k < isPrime.Length ==> isPrime[k] == (old(isPrime[k]) && !(i < k && IsMultiple(num, k)))
  {
    var j := i + num;
    ghost var step := 1;
    while j < isPrime.Length
      invariant step >= 1 && j == i + step * num
      invariant forall k :: i < k < j && IsMultiple(num, k) ==> k <= j - num
      invariant forall k :: 0 <= k < isPrime.Length ==>
                  isPrime[k] == (old(isPrime[k]) && !(i < k < j && IsMultiple(num, k)))
      decreases isPrime.Length - j
    {
      NextMultiple(num, step, i);
      isPrime[j] := false;
      j := j + num;
      step := step + 1;
    }
  }

  // The outer loop: afterwards the flags of the primes are left.
  method Sieve(len: nat) returns (isPrime: array<bool>)
    ensures fresh(isPrime) && isPrime.Length == len
    ensures forall k :: 0 <= k < len ==> (isPrime[k] <==> IsPrime(k + 2))
  {
    isPrime := new bool[len](_ => true);
    StartsUnmarked();
    for i := 0 to len
      invariant forall k :: 0 <= k < len ==> (isPrime[k] <==> Unmarked(k + 2, i + 2))
    {
      ghost var before := isPrime[..];
      UnmarkedIsPrime(i + 2);
      if isPrime[i] { ClearMultiples(isPrime, i, i + 2); }
      forall k | 0 <= k < len ensures isPrime[k] <==> Unmarked(k + 2, i + 3) {
        UnmarkedStep(k + 2, i + 2);
        assert before[k] <==> Unmarked(k + 2, i + 2);
      }
    }
    forall k | 0 <= k < len ensures isPrime[k] <==> IsPrime(k + 2) {
      UnmarkedIsPrime(k + 2);
      UnmarkedFrom(k + 2, len + 2);
    }
  }

  lemma StartsUnmarked()
    ensures forall m :: Unmarked(m, 2)
  {}

  lemma UnmarkedFrom(m: int, k: int)
    requires m <= k
    ensures Unmarked(m, k) <==> Unmarked(m, m)
  {}

  // The last loop of both generators.
  method Collect(isPrime: array<bool>) returns (primes: seq<int>)
    requires forall k :: 0 <= k < isPrime.Length ==> (isPrime[k] <==> IsPrime(k + 2))
    ensures primes == PrimesBelow(isPrime.Length + 2)
  {
    primes := [];
    for i := 0 to isPrime.Length
      invariant primes == PrimesBelow(i + 2)
    {
      if isPrime[i] { primes := primes + [i + 2]; }
    }
  }

  method SieveOfE(n: int) returns (primes: seq<int>)
    ensures primes == PrimesBelow(n)
  {
    var isPrime := Sieve(if n > 2 then n - 2 else 0);
    primes := Collect(isPrime);
  }

  lemma UnmarkedStep(m: int, num: int)
    ensures Unmarked(m, num + 1) <==> Unmarked(m, num) && !(IsPrime(num) && num < m && Divides(num, m))
  {}

  // The next multiple after index j is at j + num.
  lemma NextMultiple(num: int, step: int, i: int)
    requires num >= 2 && step >= 1 && i == num - 2
    ensures var j := i + step * num;
            j + num == i + (step + 1) * num && IsMultiple(num, j)
            && forall k :: j < k < j + num ==> !IsMultiple(num, k)
  {
    var j := i + step * num;
    var m := step + 1;
    assert j + 2 == num * m;
    MultipleOf(num, m);
    forall k | j < k < j + num ensures !IsMultiple(num, k) {
      assert k + 2 == (k - j) + num * m;
      ModShift(k - j, m, num);
    }
  }

  // ---- The factorial test ---------------------------------------------------------------------

  method WilsonTest(n: int) returns (primes: seq<int>)
    ensures primes == PrimesBelow(n)
  {
    var len := if n > 2 then n - 2 else 0;
    var isPrime := new bool[len](_ => true);
    for i := 0 to len
      invariant forall k :: 0 <= k < i ==> (isPrime[k] <==> IsPrime(k + 2))
      invariant forall k :: i <= k < len ==> isPrime[k]
    {
      Wilson(i + 2);
      if (Factorial(i + 1) + 1) % (i + 2) != 0 { isPrime[i] := false; }
    }
    primes := Collect(isPrime);
  }

  // Wilson's theorem, both directions.
  lemma Wilson(n: int)
    requires 2 <= n
    ensures IsPrime(n) <==> (Factorial(n - 1) + 1) % n == 0
  {
    if IsPrime(n) {
      WilsonPrime(n);
    } else {
      var d :| 2 <= d < n && Divides(d, n);
      FactorialMultiple(d, n - 1);
      var f := Factorial(n - 1);
      ModShift(1, f / d, d);
      assert f + 1 == 1 + d * (f / d);
      assert !Divides(d, f + 1);
      if (f + 1) % n == 0 { DividesTransitive(d, n, f + 1); }
    }
  }

  lemma {:induction false} FactorialMultiple(d: int, n: nat)
    requires 1 <= d <= n
    ensures Divides(d, Factorial(n))
  {
    if d == n {
      MultipleOf(d, Factorial(n - 1));
    } else {
      FactorialMultiple(d, n - 1);
      DividesProduct(d, Factorial(n - 1), n);
    }
  }

  // ---- Congruence -------------------------------------------------------------------------------

  predicate Same(a: int, b: int, p: int) {
    p > 0 && a % p == b % p
  }

  lemma SameShift(a: int, k: int, p: int)
    requires p > 0
    ensures Same(a + p * k, a, p)
  {
    ModShift(a, k, p);
  }

  lemma SameTimes(a: int, b: int, c: int, p: int)
    requires Same(a, b, p)
    ensures Same(a * c, b * c, p)
  {
    var k := a / p - b / p;
    assert a == b + p * k;
    Spread(b, p, k, c);
    ModShift(b * c, k * c, p);
  }

  lemma Spread(b: int, p: int, k: int, c: int)
    ensures (b + p * k) * c == b * c + p * (k * c)
  {}

  lemma SamePlus(a: int, b: int, c: int, p: int)
    requires Same(a, b, p)
    ensures Same(a + c, b + c, p)
  {
    var k := a / p - b / p;
    assert a + c == b + c + p * k;
    ModShift(b + c, k, p);
  }

  lemma SameSmall(a: int, b: int, p: int)
    requires Same(a, b, p) && 0 <= a < p && 0 <= b < p
    ensures a == b
  {}

  lemma SameRemainder(a: int, p: int)
    requires p > 0
    ensures Same(a % p, a, p) && 0 <= a % p < p
  {
    SameShift(a % p, a / p, p);
  }

  lemma SameIsEquivalence(a: int, b: int, c: int, p: int)
    ensures Same(a, b, p) && Same(b, c, p) ==> Same(a, c, p)
    ensures Same(a, b, p) ==> Same(b, a, p)
  {}

  // ---- Inverses modulo a prime -------------------------------------------------------------------

  // The inverse of a, built from the inverse of p % a: p == a*q + r gives
  // (-q * Inverse(r)) * a == r * Inverse(r) modulo p.
  function Inverse(a: int, p: int): int
    requires 1 <= a < p
    decreases a
  {
    if a == 1 || p % a == 0 then 1 else (-(p / a) * Inverse(p % a, p)) % p
  }

  predicate Inverts(a: int, b: int, p: int) {
    1 <= b < p && Same(a * b, 1, p)
  }

  lemma StepIdentity(a: int, q: int, r: int, s: int, p: int)
    requires p == a * q + r
    ensures (-q * s) * a == r * s + p * (-s)
  {
    assert (-q * s) * a == -((a * q) * s);
    assert (a * q) * s == (p - r) * s == p * s - r * s;
  }

  lemma {:induction false} InverseWorks(a: int, p: int)
    requires IsPrime(p) && 1 <= a < p
    ensures Inverts(a, Inverse(a, p), p)
    decreases a
  {
    hide Same, IsPrime;
    NonZeroRemainder(a, p);
    if a == 1 {
      SameShift(1, 0, p);
    } else {
      InverseWorks(p % a, p);
      InverseStep(a, p / a, p % a, Inverse(p % a, p), p);
    }
  }

  lemma NonZeroRemainder(a: int, p: int)
    requires IsPrime(p) && 1 <= a < p
    ensures p >= 2 && p == a * (p / a) + p % a && (a > 1 ==> 1 <= p % a < a)
  {
    assert a > 1 ==> !Divides(a, p);
  }

  lemma InverseStep(a: int, q: int, r: int, s: int, p: int)
    requires p >= 2 && p == a * q + r && Inverts(r, s, p)
    ensures Inverts(a, (-q * s) % p, p)
  {
    hide Same;
    var t := -q * s;
    var b := t % p;
    StepIdentity(a, q, r, s, p);
    SameShift(r * s, -s, p);
    SameIsEquivalence(t * a, r * s, 1, p);
    SameRemainder(t, p);
    SameTimes(b, t, a, p);
    SameIsEquivalence(b * a, t * a, 1, p);
    assert b * a == a * b;
    if b == 0 { SameSmall(0, 1, p); }
  }

  lemma InverseIsOnly(a: int, b: int, p: int)
    requires IsPrime(p) && 1 <= a < p && Inverts(a, b, p)
    ensures b == Inverse(a, p)
  {
    InverseWorks(a, p);
    hide Same, IsPrime, Inverse;
    var c := Inverse(a, p);
    SameTimes(a * c, 1, b, p);
    SameTimes(a * b, 1, c, p);
    Swap(a, b, c);
    SameIsEquivalence((a * c) * b, b, b, p);
    SameIsEquivalence(b, (a * c) * b, c, p);
    SameSmall(b, c, p);
  }

  lemma Swap(a: int, b: int, c: int)
    ensures (a * c) * b == (a * b) * c && 1 * b == b && 1 * c == c
  {}

  lemma InverseIsMutual(a: int, p: int)
    requires IsPrime(p) && 1 <= a < p
    ensures Inverts(a, Inverse(a, p), p) && Inverse(Inverse(a, p), p) == a
  {
    InverseWorks(a, p);
    var b := Inverse(a, p);
    assert b * a == a * b;
    InverseIsOnly(b, a, p);
  }

  // Only 1 and p - 1 are their own inverses.
  lemma SelfInverse(a: int, p: int)
    requires IsPrime(p) && 1 < a < p - 1
    ensures 2 <= Inverse(a, p) <= p - 2 && Inverse(a, p) != a
  {
    hide Same, IsPrime, Inverse;
    InverseWorks(a, p);
    NotOne(a, p);
    NotLast(a, p);
    NotSelf(a, p);
  }

  lemma NotOne(a: int, p: int)
    requires 1 < a < p
    ensures !Inverts(a, 1, p)
  {}

  lemma NotLast(a: int, p: int)
    requires 1 < a < p - 1
    ensures !Inverts(a, p - 1, p)
  {
    // a * (p - 1) == (p - a) + p * (a - 1)
    hide Same;
    LastIdentity(a, p);
    SameShift(p - a, a - 1, p);
    if Inverts(a, p - 1, p) {
      SameIsEquivalence(a * (p - 1), p - a, p - a, p);
      SameIsEquivalence(p - a, a * (p - 1), 1, p);
      SameSmall(p - a, 1, p);
    }
  }

  lemma LastIdentity(a: int, p: int)
    ensures a * (p - 1) == (p - a) + p * (a - 1)
  {}

  lemma NotSelf(a: int, p: int)
    requires IsPrime(p) && 1 < a < p - 1
    ensures !Inverts(a, a, p)
  {
    // c * (a - 1) * (a + 1) is both (a + 1) and a multiple of p, for c the inverse of a - 1.
    InverseWorks(a - 1, p);
    hide Same, IsPrime, Inverse;
    var c := Inverse(a - 1, p);
    SelfIdentity(a, c);
    SameTimes((a - 1) * c, 1, a + 1, p);
    if Inverts(a, a, p) {
      SamePlus(a * a, 1, -1, p);
      SameTimes(a * a - 1, 0, c, p);
      SameIsEquivalence(((a - 1) * c) * (a + 1), a + 1, a + 1, p);
      SameIsEquivalence(a + 1, ((a - 1) * c) * (a + 1), 0, p);
      SameSmall(a + 1, 0, p);
    }
  }

  lemma SelfIdentity(a: int, c: int)
    ensures (a * a - 1) * c == ((a - 1) * c) * (a + 1) && 0 * c == 0 && 1 * (a + 1) == a + 1
  {
    assert a * a - 1 == (a - 1) * (a + 1);
  }

  // ---- Pairing the factors of the factorial --------------------------------------------------------

  // The product of the members of s among 2..k.
  ghost function Product(s: set<int>, k: int): int
    decreases k
  {
    if k < 2 then 1 else (if k in s then k else 1) * Product(s, k - 1)
  }

  lemma {:induction false} ProductTakesOut(s: set<int>, k: int, x: int)
    requires x in s && 2 <= x <= k
    ensures Product(s, k) == x * Product(s - {x}, k)
    decreases k
  {
    if x == k {
      ProductSame(s, s - {x}, k - 1);
    } else {
      ProductTakesOut(s, k - 1, x);
      var f := if k in s then k else 1;
      var rest := Product(s - {x}, k - 1);
      assert f * (x * rest) == x * (f * rest);
    }
  }

  lemma {:induction false} ProductSame(s: set<int>, t: set<int>, k: int)
    requires forall y :: 2 <= y <= k ==> (y in s <==> y in t)
    ensures Product(s, k) == Product(t, k)
    decreases k
  {
    if k >= 2 { ProductSame(s, t, k - 1); }
  }

  lemma PrimeIsLarge(p: int)
    requires IsPrime(p)
    ensures p >= 2 && Same(1, 1, p)
  {}

  // A set closed under inverses multiplies to 1.
  lemma {:induction false} ClosedProductIsOne(s: set<int>, p: int)
    requires IsPrime(p)
    requires forall x :: x in s ==> 2 <= x <= p - 2 && Inverse(x, p) in s
    ensures Same(Product(s, p - 2), 1, p)
    decreases |s|
  {
    hide Same, IsPrime, Inverse, Product;
    PrimeIsLarge(p);
    if x :| x in s {
      var y := Inverse(x, p);
      SelfInverse(x, p);
      InverseIsMutual(x, p);
      var rest := s - {x} - {y};
      forall z | z in rest ensures Inverse(z, p) in rest {
        InverseIsMutual(z, p);
      }
      ClosedProductIsOne(rest, p);
      ProductTakesOut(s, p - 2, x);
      ProductTakesOut(s - {x}, p - 2, y);
      PairIsOne(x, y, Product(rest, p - 2), p);
    } else {
      assert forall y :: y !in s;
      ProductSame(s, {}, p - 2);
      EmptyProduct(p - 2);
    }
  }

  lemma PairIsOne(x: int, y: int, r: int, p: int)
    requires Inverts(x, y, p) && Same(r, 1, p)
    ensures Same(x * (y * r), 1, p)
  {
    hide Same;
    Assoc(x, y, r);
    SameTimes(x * y, 1, r, p);
    SameIsEquivalence((x * y) * r, r, 1, p);
  }

  lemma Assoc(x: int, y: int, r: int)
    ensures x * (y * r) == (x * y) * r && 1 * r == r
  {}

  lemma {:induction false} EmptyProduct(k: int)
    ensures Product({}, k) == 1
    decreases k
  {
    if k >= 2 { EmptyProduct(k - 1); }
  }

  lemma {:induction false} FactorialIsProduct(s: set<int>, k: nat)
    requires forall x :: 2 <= x <= k ==> x in s
    ensures Factorial(k) == Product(s, k)
  {
    if k >= 1 { FactorialIsProduct(s, k - 1); }
  }

  lemma WilsonPrime(p: int)
    requires IsPrime(p)
    ensures (Factorial(p - 1) + 1) % p == 0
  {
    var s := Middle(p);
    forall x | x in s ensures Inverse(x, p) in s {
      SelfInverse(x, p);
    }
    ClosedProductIsOne(s, p);
    FactorialIsProduct(s, p - 2);
    LastFactor(Factorial(p - 2), p);
  }

  function Middle(p: int): (s: set<int>)
    ensures forall x :: x in s <==> 2 <= x <= p - 2
  {
    set x: int {:trigger Inverts(x, x, p)} | 2 <= x <= p - 2
  }

  lemma LastFactor(f: int, p: int)
    requires p > 0 && Same(f, 1, p)
    ensures Same((p - 1) * f + 1, 0, p)
  {
    hide Same;
    LastFactorIdentity(f, p);
    SameShift(1 - f, f, p);
    SameTimes(f, 1, -1, p);
    SamePlus(f * -1, 1 * -1, 1, p);
    SameIsEquivalence((p - 1) * f + 1, 1 - f, 0, p);
  }

  lemma LastFactorIdentity(f: int, p: int)
    ensures (p - 1) * f + 1 == (1 - f) + p * f
    ensures f * -1 + 1 == 1 - f
  {}
}
