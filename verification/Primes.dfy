/** The two prime tables: trial division for every question, and a sieve that answers from an array. */
module Primes {
  import opened BitOps
  import opened Buckets

  predicate Divides(d: nat, n: nat)
    requires d > 0
  {
    n % d == 0
  }

  ghost predicate Prime(n: int) {
    n >= 2 && forall d: nat :: 2 <= d < n ==> !Divides(d, n)
  }

  /** r is the smallest prime above p. */
  ghost predicate NextPrime(p: int, r: int) {
    p < r && Prime(r) && forall n :: p < n < r ==> !Prime(n)
  }

  lemma NextPrimeUnique(p: int, a: int, b: int)
    requires NextPrime(p, a) && NextPrime(p, b)
    ensures a == b
  {
  }

  // ----- Divisors -----

  lemma DividesProduct(d: nat, q: nat)
    requires d > 0
    ensures Divides(d, d * q) && Divides(d, q * d)
  {
    if q == 0 {
    } else {
      DividesProduct(d, q - 1);
      assert d * q == d * (q - 1) + d;
      DividesSum(d, d * (q - 1), d);
    }
  }

  lemma Quotient(d: nat, n: nat)
    requires d > 0 && Divides(d, n)
    ensures n == d * (n / d)
  {
  }

  lemma DividesSum(d: nat, a: nat, b: nat)
    requires d > 0 && Divides(d, a)
    ensures Divides(d, b) <==> Divides(d, a + b)
  {
    var x := a / d;
    assert a == d * x;
    assert (a + b) % d == b % d by {
      assert a + b == d * (x + b / d) + b % d;
      DivModUnique(a + b, d, x + b / d, b % d);
    }
  }

  lemma DividesTransitive(a: nat, b: nat, c: nat)
    requires a > 0 && b > 0 && Divides(a, b) && Divides(b, c)
    ensures Divides(a, c)
  {
    Quotient(a, b);
    Quotient(b, c);
    var x, y := b / a, c / b;
    assert c == a * (x * y);
    DividesProduct(a, x * y);
  }

  lemma SquareMonotonic(a: nat, b: nat)
    requires a <= b
    ensures a * a <= b * b
  {
    assert b * b == a * a + (b - a) * (b + a);
  }

  lemma FactorMonotonic(d: nat, e: nat, f: nat)
    requires e <= f
    ensures d * e <= d * f
  {
    assert d * f == d * e + d * (f - e);
  }

  lemma SmallerFactor(d: nat, e: nat, f: nat)
    requires d * e < d * f
    ensures e < f
  {
    if f <= e {
      FactorMonotonic(d, f, e);
    }
  }

  /** A number with a proper divisor has one whose square does not exceed it. */
  lemma SmallDivisor(n: nat, d: nat) returns (e: nat)
    requires 2 <= d < n && Divides(d, n)
    ensures 2 <= e < n && Divides(e, n) && e * e <= n
  {
    if d * d <= n {
      e := d;
    } else {
      e := n / d;
      Quotient(d, n);
      SmallerFactor(d, e, d);
      SmallerFactor(d, 1, e);
      DividesProduct(e, d);
      FactorMonotonic(e, e, d);
    }
  }

  /** Trial division may stop at the square root. */
  lemma TrialDivision(n: nat, i: nat)
    requires n >= 2 && i * i > n && forall d: nat :: 2 <= d < i && d < n ==> !Divides(d, n)
    ensures Prime(n)
  {
    forall d: nat | 2 <= d < n
      ensures !Divides(d, n)
    {
      if Divides(d, n) {
        var e := SmallDivisor(n, d);
        if i <= e {
          SquareMonotonic(i, e);
        }
      }
    }
  }

  // ----- There is always a next prime -----

  ghost function Factorial(n: nat): (f: nat)
    ensures f > 0
  {
    if n == 0 then 1 else n * Factorial(n - 1)
  }

  lemma {:induction false} DividesFactorial(n: nat, d: nat)
    requires 1 <= d <= n
    ensures Divides(d, Factorial(n))
    decreases n
  {
    if d == n {
      DividesProduct(n, Factorial(n - 1));
    } else {
      DividesFactorial(n - 1, d);
      DividesProduct(Factorial(n - 1), n);
      DividesTransitive(d, Factorial(n - 1), Factorial(n));
    }
  }

  lemma {:induction false} PrimeDivisor(n: nat, d: nat) returns (p: nat)
    requires n >= 2 && 2 <= d <= n && Divides(d, n)
    ensures Prime(p) && Divides(p, n) && p <= n
    decreases d
  {
    if Prime(d) {
      p := d;
    } else {
      var e: nat :| 2 <= e < d && Divides(e, d);
      DividesTransitive(e, d, n);
      p := PrimeDivisor(n, e);
    }
  }

  /** There are primes above every number. */
  lemma PrimeAbove(n: nat) returns (p: nat)
    ensures p > n && Prime(p)
  {
    var m := Factorial(n) + 1;
    DividesProduct(m, 1);
    p := PrimeDivisor(m, m);
    SmallNotDivided(p, 1);
    if p <= n {
      DividesFactorial(n, p);
      DividesSum(p, Factorial(n), 1);
    }
  }

  // ----- Trial division -----

  /** Answers of the on-the-fly table: none below zero, the next prime otherwise. */
  ghost predicate OnTheFlyAnswer(p: int, r: int) {
    if p < 0 then r == -1 else NextPrime(p, r)
  }

  const INT_MAX := 0x7fff_ffff

  /** The largest number whose square is an int. */
  const INT_ROOT := 46340

  /** Where the search for a divisor of a prime ends, the last square is an int for small primes only. */
  lemma LastSquare(n: nat, i: nat)
    requires i >= 2 && i * i > n && (i > 2 ==> (i - 1) * (i - 1) <= n)
    ensures i * i <= INT_MAX <==> n < INT_ROOT * INT_ROOT
  {
    if i <= INT_ROOT {
      SquareMonotonic(i, INT_ROOT);
    } else {
      SquareMonotonic(INT_ROOT + 1, i);
      SquareMonotonic(INT_ROOT, i - 1);
    }
  }

  class OnTheFlyPrimeTable {
    constructor () {
    }

    /** The widest square that is computed is an int unless n is a prime from 46340 squared on. */
    method IsPrime(n: int) returns (b: bool, ghost widest: nat)
      ensures b <==> Prime(n)
      ensures n <= INT_MAX ==> (widest <= INT_MAX <==> !Prime(n) || n < INT_ROOT * INT_ROOT)
    {
      widest := 0;
      if n <= 1 {
        return false, widest;
      }
      var i := 2;
      widest := i * i;
      while i * i <= n
        invariant i >= 2 && widest == i * i && (i > 2 ==> (i - 1) * (i - 1) <= n)
        invariant forall d: nat :: 2 <= d < i && d < n ==> !Divides(d, n)
        decreases n - i
      {
        Below(i, n);
        if n % i == 0 {
          assert Divides(i, n);
          return false, widest;
        }
        i := i + 1;
        widest := i * i;
      }
      TrialDivision(n, i);
      LastSquare(n, i);
      return true, widest;
    }

    /** All computed squares and candidates are ints exactly if the answer is below 46340 squared. */
    method GetNextPrime(p: int) returns (r: int, ghost within: bool)
      ensures OnTheFlyAnswer(p, r)
      ensures p <= INT_MAX ==> (within <==> r < INT_ROOT * INT_ROOT)
    {
      var n := p + 1;
      within := n <= INT_MAX;
      ghost var bound: nat := 0;
      if p >= 0 {
        bound := PrimeAbove(p);
      }
      while n > 0
        invariant p < 0 ==> n == p + 1
        invariant within <==> n <= INT_MAX
        invariant p >= 0 ==> p < n <= bound && Prime(bound) && forall k :: p < k < n ==> !Prime(k)
        decreases bound - n
      {
        var b, widest := IsPrime(n);
        within := within && widest <= INT_MAX;
        if b {
          return n, within;
        }
        n := n + 1;
        within := within && n <= INT_MAX;
      }
      return -1, within;
    }
  }

  lemma Below(i: nat, n: nat)
    requires i >= 2 && i * i <= n
    ensures i < n
  {
    assert i * i >= 2 * i;
  }

  // ----- The sieve -----

  /** k has a divisor below i whose square does not exceed it. */
  ghost predicate Crossed(k: nat, i: nat) {
    exists d: nat :: 2 <= d < i && d * d <= k && Divides(d, k)
  }

  /** The array after all candidates below i: exactly the numbers from 2 that are not crossed. */
  ghost predicate Sieved(a: seq<bool>, i: nat) {
    forall k: nat {:trigger a[k]} :: k < |a| ==> (a[k] <==> k >= 2 && !Crossed(k, i))
  }

  /** The array while multiples of i below j are removed. */
  ghost predicate Removing(was: seq<bool>, a: seq<bool>, i: nat, j: nat)
    requires i > 0
  {
    && |a| == |was|
    && forall k: nat {:trigger a[k]} :: k < |a| ==> (a[k] <==> was[k] && !(i * i <= k < j && Divides(i, k)))
  }

  lemma RemoveStep(was: seq<bool>, a: seq<bool>, i: nat, j: nat)
    requires i > 0 && Removing(was, a, i, j) && i * i <= j < |a| && Divides(i, j)
    ensures Removing(was, a[j := false], i, j + i) && Divides(i, j + i)
  {
    DividesSum(i, j, i);
    DividesProduct(i, 1);
    forall k: nat | j < k < j + i
      ensures !Divides(i, k)
    {
      DividesSum(i, j, k - j);
      SmallNotDivided(i, k - j);
    }
  }

  lemma SmallNotDivided(i: nat, r: nat)
    requires 0 < r < i
    ensures !Divides(i, r)
  {
    DivModUnique(r, i, 0, r);
  }

  lemma CrossedMore(k: nat, i: nat)
    requires i >= 2
    ensures Crossed(k, i + 1) <==> Crossed(k, i) || (i * i <= k && Divides(i, k))
  {
  }

  /** Removing the multiples of i from its square on. */
  lemma RemovedAll(was: seq<bool>, a: seq<bool>, i: nat, j: nat)
    requires i >= 2 && Sieved(was, i) && Removing(was, a, i, j) && j >= |a|
    ensures Sieved(a, i + 1)
  {
    forall k: nat | k < |a|
      ensures a[k] <==> k >= 2 && !Crossed(k, i + 1)
    {
      CrossedMore(k, i);
      assert was[k] <==> k >= 2 && !Crossed(k, i);
    }
  }

  /** Nothing is lost by skipping a candidate that was itself removed or is even. */
  lemma SkipComposite(a: seq<bool>, i: nat, d: nat)
    requires i >= 2 && Sieved(a, i) && 2 <= d < i && Divides(d, i)
    ensures Sieved(a, i + 1)
  {
    forall k: nat | k < |a|
      ensures a[k] <==> k >= 2 && !Crossed(k, i + 1)
    {
      CrossedMore(k, i);
      if i * i <= k && Divides(i, k) {
        DividesTransitive(d, i, k);
        SquareMonotonic(d, i);
        assert Crossed(k, i);
      }
      assert a[k] <==> k >= 2 && !Crossed(k, i);
    }
  }

  lemma SkipEven(a: seq<bool>, i: nat)
    requires i > 2 && i % 2 == 0 && Sieved(a, i)
    ensures Sieved(a, i + 1)
  {
    SkipComposite(a, i, 2);
  }

  lemma NothingCrossed(a: seq<bool>)
    requires forall k :: 0 <= k < |a| ==> (a[k] <==> k >= 2)
    ensures Sieved(a, 2)
  {
  }

  lemma SkipCrossed(a: seq<bool>, i: nat)
    requires 2 <= i < |a| && Sieved(a, i) && !a[i]
    ensures Sieved(a, i + 1)
  {
    assert Crossed(i, i);
    var d: nat :| 2 <= d < i && d * d <= i && Divides(d, i);
    SkipComposite(a, i, d);
  }

  lemma SievedToSquareRoot(a: seq<bool>, i: nat)
    requires |a| >= 2 && Sieved(a, i) && i >= 2 && i * i > |a| - 1
    ensures forall n: nat :: n < |a| ==> (a[n] <==> Prime(n))
  {
    forall n: nat | n < |a|
      ensures a[n] <==> Prime(n)
    {
      assert a[n] <==> n >= 2 && !Crossed(n, i);
      if n >= 2 && !Crossed(n, i) {
        forall d: nat | 2 <= d < n
          ensures !Divides(d, n)
        {
          if Divides(d, n) {
            var e := SmallDivisor(n, d);
            if i <= e {
              SquareMonotonic(i, e);
            }
          }
        }
      }
      if Crossed(n, i) {
        var d: nat :| 2 <= d < i && d * d <= n && Divides(d, n);
        Below(d, n);
      }
    }
  }

  /** Answers of a table up to max: the next prime if the table holds it, otherwise -1; and no answer
      to questions for which it reads before its array. */
  ghost predicate TableAnswer(max: int, p: int, r: Option<int>) {
    match r
    case None => p < -1
    case Some(n) =>
      && p >= -1
      && if n == -1 then forall k :: p < k <= max ==> !Prime(k) else NextPrime(p, n) && n <= max
  }

  class PreCalculatedPrimeTable {
    const isPrimeSize: int
    const isPrime: array<bool>

    ghost predicate Valid()
      reads isPrime
    {
      && isPrimeSize == isPrime.Length >= 2
      && forall n :: 0 <= n < isPrimeSize ==> (isPrime[n] <==> Prime(n))
    }

    /** The table is usable when it has entries for 0 and 1. */
    constructor (max: int)
      ensures isPrimeSize == max + 1 && fresh(isPrime)
      ensures max >= 1 ==> Valid()
    {
      isPrimeSize := max + 1;
      isPrime := new bool[if max >= 0 then max + 1 else 0](i => true);
      new;
      var _ := CalculatePrimesUpTo(max);
    }

    /** False when the entries for 0 and 1, which it writes first, lie outside the array. */
    method CalculatePrimesUpTo(max: int) returns (defined: bool)
      requires isPrimeSize == max + 1 && isPrime.Length == if max >= 0 then max + 1 else 0
      modifies isPrime
      ensures defined <==> max >= 1
      ensures defined ==> Valid()
    {
      hide Sieved, Prime;
      forall k | 0 <= k < isPrime.Length {
        isPrime[k] := true;
      }
      if isPrime.Length < 2 {
        return false;
      }
      isPrime[1] := false;
      isPrime[0] := isPrime[1];
      NothingCrossed(isPrime[..]);
      var i := 2;
      while i * i <= max
        invariant i >= 2 && (i % 2 == 0 ==> i == 2)
        invariant Sieved(isPrime[..], i)
        decreases max - i
      {
        Below(i, max);
        CheckCandidate(i, max);
        i := i + i % 2 + 1;
      }
      SievedToSquareRoot(isPrime[..], i);
      assert forall n :: 0 <= n < isPrimeSize ==> isPrime[..][n] == isPrime[n];
      return true;
    }

    /** Marks the multiples of the candidate if it is a prime; an even number behind it needs no check. */
    method CheckCandidate(i: nat, max: int)
      requires isPrimeSize == isPrime.Length == max + 1 && 2 <= i <= max && (i % 2 == 0 ==> i == 2)
      requires Sieved(isPrime[..], i)
      modifies isPrime
      ensures Sieved(isPrime[..], i + i % 2 + 1)
    {
      hide Sieved;
      ghost var was := isPrime[..];
      if isPrime[i] {
        RemoveMultiples(i, max);
      } else {
        SkipCrossed(was, i);
      }
      if i % 2 == 1 {
        SkipEven(isPrime[..], i + 1);
      }
    }

    /** Marks the multiples of a prime from its square on. */
    method RemoveMultiples(i: nat, max: int)
      requires isPrimeSize == isPrime.Length == max + 1 && i >= 2 && Sieved(isPrime[..], i)
      modifies isPrime
      ensures Sieved(isPrime[..], i + 1)
    {
      ghost var was := isPrime[..];
      var j := i * i;
      DividesProduct(i, i);
      while j <= max
        invariant j >= i * i && Divides(i, j)
        invariant Removing(was, isPrime[..], i, j)
        decreases max - j
      {
        RemoveStep(was, isPrime[..], i, j);
        isPrime[j] := false;
        j := j + i;
      }
      RemovedAll(was, isPrime[..], i, j);
    }

    method IsPrime(n: int) returns (b: bool)
      requires Valid()
      ensures b <==> n < isPrimeSize && Prime(n)
    {
      b := 0 <= n < isPrimeSize && isPrime[n];
    }

    method GetNextPrime(p: int) returns (r: Option<int>)
      requires Valid()
      ensures TableAnswer(isPrimeSize - 1, p, r)
    {
      var n := p + 1;
      if n < 0 {
        return None;
      }
      while n < isPrimeSize
        invariant n > p && forall k :: p < k < n ==> !Prime(k)
        decreases isPrimeSize - n
      {
        if isPrime[n] {
          return Some(n);
        }
        n := n + 1;
      }
      return Some(-1);
    }
  }

  /** Whenever the table has an answer, it is the answer of the other table if and only if the
      question is not below zero; and the table has no answer exactly when the next prime is
      beyond it. */
  lemma TablesAgree(max: int, p: int, fly: int, table: Option<int>)
    requires max >= 1 && OnTheFlyAnswer(p, fly) && TableAnswer(max, p, table)
    ensures table.Some? && table.value != -1 ==> (table.value == fly <==> p >= 0)
    ensures p >= 0 ==> (table == Some(-1) <==> fly > max)
  {
    if p >= 0 && table != Some(-1) {
      NextPrimeUnique(p, fly, table.value);
    }
  }

  /** Below zero they differ: asked for -1, a table that holds 2 answers 2 and the other one -1. */
  lemma TablesDifferBelowZero(max: int, fly: int, table: Option<int>)
    requires max >= 2 && OnTheFlyAnswer(-1, fly) && TableAnswer(max, -1, table)
    ensures table == Some(2) && fly == -1
  {
    assert Prime(2);
  }
}
