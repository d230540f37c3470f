/** Powers of two, residues modulo powers of two, and the bitwise operators of
    unsigned integers, written on natural numbers.

    The hash table computes directory positions with `&`, `|`, `^` and `~`.  The
    lemmas at the end say which residue or which neighbour those expressions name. */
module BitOps {

  type uint64 = x: int | 0 <= x < 0x1_0000_0000_0000_0000

  function Pow2(n: nat): (p: nat)
    ensures p >= 1
  {
    if n == 0 then 1 else 2 * Pow2(n - 1)
  }

  lemma {:induction false} Pow2Add(a: nat, b: nat)
    ensures Pow2(a + b) == Pow2(a) * Pow2(b)
  {
    if a == 0 {
    } else {
      Pow2Add(a - 1, b);
      assert Pow2(a + b) == 2 * Pow2(a - 1 + b);
      assert 2 * (Pow2(a - 1) * Pow2(b)) == Pow2(a) * Pow2(b);
    }
  }

  lemma {:induction false} Pow2Monotonic(a: nat, b: nat)
    requires a <= b
    ensures Pow2(a) <= Pow2(b)
  {
    if a < b {
      Pow2Monotonic(a, b - 1);
    }
  }

  lemma {:induction false} Pow2Strict(a: nat, b: nat)
    requires a < b
    ensures Pow2(a) < Pow2(b)
  {
    Pow2Monotonic(a, b - 1);
  }

  lemma Pow2Of16()
    ensures Pow2(3) == 8 && Pow2(8) == 256 && Pow2(9) == 512 && Pow2(16) == 0x1_0000
  {
    assert Pow2(2) == 4;
    assert Pow2(3) == 2 * Pow2(2);
    Pow2Add(4, 4);
    assert Pow2(9) == 2 * Pow2(8);
    Pow2Add(8, 8);
  }

  lemma Pow2Of64()
    ensures Pow2(3) == 8 && Pow2(9) == 512
    ensures Pow2(61) == 0x2000_0000_0000_0000
    ensures Pow2(64) == 0x1_0000_0000_0000_0000
  {
    Pow2Of16();
    hide Pow2;
    Pow2Add(16, 16);
    Pow2Add(32, 32);
    Pow2Add(61, 3);
  }

  // ----- Residues -----

  lemma DivModUnique(x: int, m: int, q: int, r: int)
    requires m > 0 && x == q * m + r && 0 <= r < m
    ensures x / m == q && x % m == r
  {
    var q', r' := x / m, x % m;
    assert x == m * q' + r';
    var d := q - q';
    assert m * d == r' - r by { assert m * d == m * q - m * q'; }
    MulAtLeast(m, d);
  }

  lemma MulAtLeast(m: int, d: int)
    requires m > 0
    ensures d >= 1 ==> m * d >= m
    ensures d <= -1 ==> m * d <= -m
  {
    if d >= 1 {
      assert m * d == m * (d - 1) + m;
    } else if d <= -1 {
      assert m * d == m * (d + 1) - m;
    }
  }

  /** Passing from modulus m to 2m adds either nothing or m to the residue. */
  lemma ModDouble(x: nat, m: nat)
    requires m > 0
    ensures x % (2 * m) == x % m + (if x / m % 2 == 1 then m else 0)
    ensures x / (2 * m) == x / m / 2
  {
    var q, r := x / m, x % m;
    var h, b := q / 2, q % 2;
    assert q == 2 * h + b;
    assert x == q * m + r;
    assert x == h * (2 * m) + (b * m + r) by {
      assert (2 * h + b) * m == h * (2 * m) + b * m;
    }
    DivModUnique(x, 2 * m, h, b * m + r);
  }

  lemma {:induction false} ModMod(x: nat, l: nat, g: nat)
    requires l <= g
    ensures x % Pow2(g) % Pow2(l) == x % Pow2(l)
    decreases g
  {
    var y := x % Pow2(g);
    if l == g {
      DivModUnique(y, Pow2(g), 0, y);
    } else {
      var m := Pow2(g - 1);
      ModDouble(x, m);
      var r := x % m;
      assert y == r || y == m + r;
      DivModUnique(y, m, if y == r then 0 else 1, r);
      assert y % m == r;
      ModMod(x, l, g - 1);
      ModMod(y, l, g - 1);
    }
  }

  /** Two numbers with the same residue modulo 2^g agree modulo every smaller power. */
  lemma SameModulo(x: nat, y: nat, l: nat, g: nat)
    requires l <= g && x % Pow2(g) == y % Pow2(g)
    ensures x % Pow2(l) == y % Pow2(l)
  {
    ModMod(x, l, g);
    ModMod(y, l, g);
  }

  lemma SmallMod(x: nat, g: nat)
    requires x < Pow2(g)
    ensures x % Pow2(g) == x
  {
    DivModUnique(x, Pow2(g), 0, x);
  }

  // ----- Bitwise operators -----

  function And(a: nat, b: nat): nat {
    if a == 0 || b == 0 then 0
    else 2 * And(a / 2, b / 2) + (if a % 2 == 1 && b % 2 == 1 then 1 else 0)
  }

  function Or(a: nat, b: nat): nat {
    if a == 0 && b == 0 then 0
    else 2 * Or(a / 2, b / 2) + (if a % 2 == 1 || b % 2 == 1 then 1 else 0)
  }

  function Xor(a: nat, b: nat): nat {
    if a == 0 && b == 0 then 0
    else 2 * Xor(a / 2, b / 2) + (if a % 2 != b % 2 then 1 else 0)
  }

  /** Complement of an unsigned integer of `width` bits. */
  function Not(width: nat, a: nat): nat
    requires a < Pow2(width)
  {
    Pow2(width) - 1 - a
  }

  /** The operators work bit by bit. */
  lemma {:induction false} BitByBit(a: nat, b: nat, i: nat)
    ensures And(a, b) / Pow2(i) % 2 == 1 <==> a / Pow2(i) % 2 == 1 && b / Pow2(i) % 2 == 1
    ensures Or(a, b) / Pow2(i) % 2 == 1 <==> a / Pow2(i) % 2 == 1 || b / Pow2(i) % 2 == 1
    ensures Xor(a, b) / Pow2(i) % 2 == 1 <==> a / Pow2(i) % 2 != b / Pow2(i) % 2
  {
    if i == 0 {
      LowBit(a, b);
    } else {
      BitByBit(a / 2, b / 2, i - 1);
      HigherBit(a, i);
      HigherBit(b, i);
      HigherBit(And(a, b), i);
      HigherBit(Or(a, b), i);
      HigherBit(Xor(a, b), i);
      HalvesOf(a, b);
    }
  }

  lemma OneStep(a: nat, b: nat)
    ensures And(a, b) == 2 * And(a / 2, b / 2) + (if a % 2 == 1 && b % 2 == 1 then 1 else 0)
    ensures Or(a, b) == 2 * Or(a / 2, b / 2) + (if a % 2 == 1 || b % 2 == 1 then 1 else 0)
    ensures Xor(a, b) == 2 * Xor(a / 2, b / 2) + (if a % 2 != b % 2 then 1 else 0)
  {
  }

  lemma LastDigit(h: nat, low: nat)
    requires low < 2
    ensures (2 * h + low) / 2 == h && (2 * h + low) % 2 == low
  {
  }

  lemma LowBit(a: nat, b: nat)
    ensures And(a, b) % 2 == 1 <==> a % 2 == 1 && b % 2 == 1
    ensures Or(a, b) % 2 == 1 <==> a % 2 == 1 || b % 2 == 1
    ensures Xor(a, b) % 2 == 1 <==> a % 2 != b % 2
  {
    OneStep(a, b);
    hide And, Or, Xor;
    LastDigit(And(a / 2, b / 2), And(a, b) - 2 * And(a / 2, b / 2));
    LastDigit(Or(a / 2, b / 2), Or(a, b) - 2 * Or(a / 2, b / 2));
    LastDigit(Xor(a / 2, b / 2), Xor(a, b) - 2 * Xor(a / 2, b / 2));
  }

  lemma HalvesOf(a: nat, b: nat)
    ensures And(a, b) / 2 == And(a / 2, b / 2)
    ensures Or(a, b) / 2 == Or(a / 2, b / 2)
    ensures Xor(a, b) / 2 == Xor(a / 2, b / 2)
  {
    OneStep(a, b);
    hide And, Or, Xor;
    LastDigit(And(a / 2, b / 2), And(a, b) - 2 * And(a / 2, b / 2));
    LastDigit(Or(a / 2, b / 2), Or(a, b) - 2 * Or(a / 2, b / 2));
    LastDigit(Xor(a / 2, b / 2), Xor(a, b) - 2 * Xor(a / 2, b / 2));
  }

  lemma HigherBit(x: nat, i: nat)
    requires i > 0
    ensures x / Pow2(i) % 2 == x / 2 / Pow2(i - 1) % 2
  {
    DivTwice(x, Pow2(i - 1));
  }

  lemma HalfComplement(q: nat, a: nat)
    requires a < 2 * q
    ensures (2 * q - 1 - a) / 2 == q - 1 - a / 2 && a / 2 < q
    ensures (2 * q - 1 - a) % 2 != a % 2
  {
  }

  /** The complement flips every bit of the width. */
  lemma {:induction false} NotFlips(width: nat, a: nat, i: nat)
    requires a < Pow2(width) && i < width
    ensures Not(width, a) / Pow2(i) % 2 != a / Pow2(i) % 2
  {
    var n, q := Not(width, a), Pow2(width - 1);
    HalfComplement(q, a);
    if i == 0 {
      assert n / 1 == n && a / 1 == a;
    } else {
      NotFlips(width - 1, a / 2, i - 1);
      assert n / 2 == Not(width - 1, a / 2);
      HigherBit(a, i);
      HigherBit(n, i);
    }
  }

  lemma AndStep(k: nat, m: nat)
    requires m > 0
    ensures And(k, 2 * m - 1) == 2 * And(k / 2, m - 1) + k % 2
  {
    OneStep(k, 2 * m - 1);
    LastDigit(m - 1, 1);
  }

  lemma MaskDoubled(k: nat, m: nat, p: nat)
    requires m > 0 && p == 2 * m && And(k / 2, m - 1) == k / 2 % m
    ensures And(k, p - 1) == k % p
  {
    AndStep(k, m);
    DivTwice(k, m);
  }

  lemma NoMask(k: nat)
    ensures And(k, Pow2(0) - 1) == 0 == k % Pow2(0)
  {
  }

  /** `k & ((1 << g) - 1)` is the residue of k modulo 2^g. */
  lemma {:induction false} AndMask(k: nat, g: nat)
    ensures And(k, Pow2(g) - 1) == k % Pow2(g)
  {
    if g == 0 {
      NoMask(k);
    } else {
      AndMask(k / 2, g - 1);
      MaskDoubled(k, Pow2(g - 1), Pow2(g));
    }
  }

  lemma {:induction false} OrSelf(a: nat)
    ensures Or(a, a) == a
  {
    if a == 0 {
    } else {
      OrSelf(a / 2);
    }
  }

  lemma {:induction false} XorZero(a: nat)
    ensures Xor(a, 0) == a
  {
    if a == 0 {
    } else {
      XorZero(a / 2);
    }
  }

  /** Position b with bit l flipped. */
  function Buddy(b: nat, l: nat): nat {
    if l == 0 then b - b % 2 + (1 - b % 2) else 2 * Buddy(b / 2, l - 1) + b % 2
  }

  lemma {:induction false} BuddyValue(b: nat, l: nat)
    ensures Buddy(b, l) == if b / Pow2(l) % 2 == 0 then b + Pow2(l) else b - Pow2(l)
  {
    if l == 0 {
    } else {
      BuddyValue(b / 2, l - 1);
      DivTwice(b, Pow2(l - 1));
    }
  }

  lemma FlipLowBit(b: nat, width: nat)
    requires 0 < width && b < Pow2(width)
    ensures And(b, Not(width, 1)) == b - b % 2
    ensures Xor(b, 1) == b - b % 2 + (1 - b % 2)
    ensures Or(b - b % 2, b - b % 2 + (1 - b % 2)) == b - b % 2 + (1 - b % 2)
  {
    AndComplement(b, width);
    XorZero(b / 2);
    OrSuccessor(b / 2, 1 - b % 2);
  }

  lemma AndComplement(b: nat, width: nat)
    requires 0 < width && b < Pow2(width)
    ensures And(b, Not(width, 1)) == b - b % 2
  {
    var m := Pow2(width - 1);
    assert Not(width, 1) == 2 * (m - 1);
    AndMask(b / 2, width - 1);
    SmallMod(b / 2, width - 1);
  }

  lemma OrSuccessor(c: nat, low: nat)
    requires low < 2
    ensures Or(2 * c, 2 * c + low) == 2 * c + low
  {
    var e, d := 2 * c, 2 * c + low;
    assert e / 2 == c && d / 2 == c && e % 2 == 0 && d % 2 == low;
    OrSelf(c);
  }

  /** `(b & ~mask) | (b ^ mask)` over unsigned integers of `width` bits. */
  function FlipExpression(b: nat, mask: nat, width: nat): nat
    requires mask < Pow2(width)
  {
    Or(And(b, Not(width, mask)), Xor(b, mask))
  }

  /** With `mask == 1 << l` the expression flips bit l of b. */
  lemma {:induction false} SplitTarget(b: nat, l: nat, width: nat)
    requires l < width && b < Pow2(width)
    ensures Pow2(l) < Pow2(width)
    ensures FlipExpression(b, Pow2(l), width) == Buddy(b, l)
    decreases l
  {
    Pow2Strict(l, width);
    if l == 0 {
      FlipLowBit(b, width);
    } else {
      SplitTarget(b / 2, l - 1, width - 1);
      FlipHalves(b, Pow2(l - 1), width);
    }
  }

  lemma FlipHalves(b: nat, m: nat, width: nat)
    requires width > 0 && m < Pow2(width - 1)
    ensures 2 * m < Pow2(width)
    ensures FlipExpression(b, 2 * m, width) == 2 * FlipExpression(b / 2, m, width - 1) + b % 2
  {
    CombineHalves(b / 2, Not(width - 1, m), m, b % 2);
  }

  lemma CombineHalves(c: nat, n: nat, m: nat, low: nat)
    requires low < 2
    ensures Or(And(2 * c + low, 2 * n + 1), Xor(2 * c + low, 2 * m)) == 2 * Or(And(c, n), Xor(c, m)) + low
  {
    AndHalves(c, n, low);
    XorHalves(c, m, low);
    OrHalves(And(c, n), Xor(c, m), low);
  }

  lemma AndHalves(c: nat, n: nat, low: nat)
    requires low < 2
    ensures And(2 * c + low, 2 * n + 1) == 2 * And(c, n) + low
  {
    var b, k := 2 * c + low, 2 * n + 1;
    assert b / 2 == c && b % 2 == low && k / 2 == n && k % 2 == 1;
  }

  lemma XorHalves(c: nat, m: nat, low: nat)
    requires low < 2
    ensures Xor(2 * c + low, 2 * m) == 2 * Xor(c, m) + low
  {
    var b, k := 2 * c + low, 2 * m;
    assert b / 2 == c && b % 2 == low && k / 2 == m && k % 2 == 0;
  }

  lemma OrHalves(a: nat, x: nat, low: nat)
    requires low < 2
    ensures Or(2 * a + low, 2 * x + low) == 2 * Or(a, x) + low
  {
    var b, k := 2 * a + low, 2 * x + low;
    assert b / 2 == a && b % 2 == low && k / 2 == x && k % 2 == low;
  }

  lemma DivTwice(b: nat, m: nat)
    requires m > 0
    ensures b / (2 * m) == b / 2 / m
    ensures b % (2 * m) == 2 * (b / 2 % m) + b % 2
  {
    var c := b / 2;
    var q, r := c / m, c % m;
    assert c == q * m + r;
    assert 2 * (q * m) == q * (2 * m);
    DivModUnique(b, 2 * m, q, 2 * r + b % 2);
  }

  /** Flipping bit l changes the residue modulo 2^(l+1) but not the residue modulo 2^l. */
  lemma BuddyResidue(b: nat, l: nat)
    ensures Buddy(b, l) % Pow2(l) == b % Pow2(l)
    ensures Buddy(b, l) % Pow2(l + 1) != b % Pow2(l + 1)
    ensures forall x: nat :: x % Pow2(l) == b % Pow2(l) ==>
      (x % Pow2(l + 1) == b % Pow2(l + 1) || x % Pow2(l + 1) == Buddy(b, l) % Pow2(l + 1))
  {
    BuddyValue(b, l);
    FlippedResidue(b, Pow2(l), Buddy(b, l));
  }

  lemma FlippedResidue(b: nat, m: nat, y: nat)
    requires m > 0 && y == if b / m % 2 == 0 then b + m else b - m
    ensures y % m == b % m
    ensures y % (2 * m) != b % (2 * m)
    ensures forall x: nat :: x % m == b % m ==> x % (2 * m) == b % (2 * m) || x % (2 * m) == y % (2 * m)
  {
    FlippedQuotient(b, m, y);
    TwoHalves(b, b, y, m);
    forall x: nat | x % m == b % m
      ensures x % (2 * m) == b % (2 * m) || x % (2 * m) == y % (2 * m)
    {
      TwoHalves(x, b, y, m);
    }
  }

  lemma FlippedQuotient(b: nat, m: nat, y: nat)
    requires m > 0 && y == if b / m % 2 == 0 then b + m else b - m
    ensures y % m == b % m && y / m % 2 != b / m % 2
  {
    var q, r := b / m, b % m;
    assert b == q * m + r;
    if q % 2 == 0 {
      assert (q + 1) * m == q * m + m;
      DivModUnique(y, m, q + 1, r);
    } else {
      assert (q - 1) * m == q * m - m;
      DivModUnique(y, m, q - 1, r);
    }
  }

  /** Two numbers of one residue class modulo m whose quotients differ in parity stand for the two
      classes modulo 2m. */
  lemma TwoHalves(x: nat, b: nat, y: nat, m: nat)
    requires m > 0 && x % m == b % m == y % m && y / m % 2 != b / m % 2
    ensures y % (2 * m) != b % (2 * m)
    ensures x % (2 * m) == b % (2 * m) || x % (2 * m) == y % (2 * m)
  {
    ModDouble(x, m);
    ModDouble(b, m);
    ModDouble(y, m);
  }

  /** The flipped position lies in a directory of 2^g entries exactly when l < g. */
  lemma BuddyRange(b: nat, l: nat, g: nat)
    requires b < Pow2(g) && l <= g
    ensures Buddy(b, l) < Pow2(g + 1)
    ensures Buddy(b, l) < Pow2(g) <==> l < g
  {
    BuddyValue(b, l);
    if l == g {
      DivModUnique(b, Pow2(l), 0, b);
    } else {
      var m, h := Pow2(l), Pow2(g - l - 1);
      Pow2Add(g - l, l);
      assert Pow2(g) == 2 * h * m;
      if b / m % 2 == 0 {
        HalfRange(b, m, h);
      }
    }
  }

  lemma HalfRange(b: nat, m: nat, h: nat)
    requires m > 0 && b < 2 * h * m && b / m % 2 == 0
    ensures b + m < 2 * h * m
  {
    var q, r := b / m, b % m;
    assert b == m * q + r;
    var d := q - (2 * h - 1);
    MulAtLeast(m, d);
    assert m * d == m * q - 2 * h * m + m by {
      assert m * d == m * q - m * (2 * h - 1);
      assert m * (2 * h - 1) == 2 * h * m - m;
    }
  }

  // ----- 32-bit ints -----

  /** The value that a 32-bit int has after wrapping around. */
  function Int32(x: int): int {
    (x + 0x8000_0000) % 0x1_0000_0000 - 0x8000_0000
  }

  /** `(1 << g) - 1` over 32-bit ints, converted to an unsigned 64-bit integer. */
  function IntMask(g: nat): uint64 {
    Int32(Int32(Pow2(g)) - 1) % 0x1_0000_0000_0000_0000
  }

  lemma IntValue(x: int)
    ensures Int32(x) == x <==> -0x8000_0000 <= x < 0x8000_0000
  {
  }

  lemma Pow2Of31()
    ensures Pow2(30) == 0x4000_0000 && Pow2(31) == 0x8000_0000
  {
    Pow2Of16();
    Pow2Add(16, 16);
    assert Pow2(32) == 2 * Pow2(31) == 4 * Pow2(30);
  }

  /** The shifted int literal has its mathematical value exactly for shifts of at most 30. */
  lemma ShiftInInt(d: nat)
    ensures Int32(Pow2(d)) == Pow2(d) <==> d <= 30
    ensures d <= 30 ==> Pow2(d) <= 0x4000_0000
  {
    Pow2Of31();
    hide Int32;
    IntValue(Pow2(d));
    if d <= 30 {
      Pow2Monotonic(d, 30);
    } else {
      Pow2Monotonic(31, d);
    }
  }

  lemma MaskInInt(g: nat)
    requires g <= 30
    ensures IntMask(g) == Pow2(g) - 1
  {
    hide Int32, Pow2;
    ShiftInInt(g);
    IntValue(Pow2(g) - 1);
  }

  // ----- Counting the positions of one residue class -----

  function CountClass(n: nat, m: nat, r: nat): nat
    requires m > 0
  {
    if n == 0 then 0 else CountClass(n - 1, m, r) + (if (n - 1) % m == r then 1 else 0)
  }

  lemma {:induction false} CountClassPeriod(n: nat, m: nat, r: nat, k: nat)
    requires r < m && k <= m
    requires n % m == 0
    ensures CountClass(n + k, m, r) == CountClass(n, m, r) + (if r < k then 1 else 0)
    decreases k
  {
    if k == 0 {
    } else {
      CountClassPeriod(n, m, r, k - 1);
      WithinPeriod(n, m, k - 1);
    }
  }

  lemma WithinPeriod(n: nat, m: nat, k: nat)
    requires k < m && n % m == 0
    ensures (n + k) % m == k
  {
    var q := n / m;
    assert n == q * m;
    DivModUnique(n + k, m, q, k);
  }

  lemma {:induction false} CountClassMultiple(c: nat, m: nat, r: nat)
    requires r < m
    ensures CountClass(c * m, m, r) == c
    decreases c
  {
    if c == 0 {
      assert 0 * m == 0;
    } else {
      var n := (c - 1) * m;
      assert c * m == n + m;
      CountClassMultiple(c - 1, m, r);
      DivModUnique(n, m, c - 1, 0);
      CountClassPeriod(n, m, r, m);
    }
  }
}
