/** 32-bit machine words, the bit operations the kernel uses on them, and the
    arithmetic meaning of its power-of-two masks.

    Bitwise AND and OR are defined bit by bit on natural numbers, so that every
    mask expression of the source can be written down as it stands; the lemmas
    say what the masks compute. */
module Words {

  const WORD_MOD := 0x1_0000_0000

  type word = x: nat | x < 0x1_0000_0000

  /** Unsigned 32-bit wrap-around. */
  function Wrap(x: int): word {
    x % 0x1_0000_0000
  }

  function Pow2(k: nat): (r: nat)
    ensures r > 0
  {
    if k == 0 then 1 else 2 * Pow2(k - 1)
  }

  function Max(a: nat, b: nat): nat {
    if a > b then a else b
  }

  function BitAnd(x: nat, y: nat): (r: nat)
    ensures r <= x && r <= y
  {
    if x == 0 || y == 0 then 0
    else (if x % 2 == 1 && y % 2 == 1 then 1 else 0) + 2 * BitAnd(x / 2, y / 2)
  }

  function BitOr(x: nat, y: nat): (r: nat)
    ensures x <= r && y <= r
  {
    if x == 0 then y else if y == 0 then x
    else (if x % 2 == 1 || y % 2 == 1 then 1 else 0) + 2 * BitOr(x / 2, y / 2)
  }

  /** Bitwise complement of a 32-bit word. */
  function Not(x: word): word {
    0xFFFF_FFFF - x
  }

  /** The ALIGN macro: (x + (a - 1)) & ~(a - 1). */
  function Align(x: word, a: word): word {
    BitAnd(Wrap(x + Wrap(a - 1)), Not(Wrap(a - 1)))
  }

  predicate IsPowerOf2(n: word) {
    n != 0 && BitAnd(n, n - 1) == 0
  }

  ghost predicate IsPow2(n: nat) {
    exists k: nat :: n == Pow2(k)
  }

  /** The number of leading zero bits of a word of the given width. */
  function LeadingZeros(n: nat, width: nat): (r: nat)
    requires n < Pow2(width)
    ensures r <= width
  {
    if width == 0 || n >= Pow2(width - 1) then 0 else 1 + LeadingZeros(n, width - 1)
  }

  /** Index of the highest set bit. The builtin it is made of is undefined at 0. */
  function Fls(n: word): nat
    requires n > 0
  {
    Pow2At32();
    var z := LeadingZeros(n, 32);
    LeadingZerosBound(n, 32);
    32 - z - 1
  }

  // ----- division and powers -----

  lemma MulLe(a: nat, b: nat, d: nat)
    requires a <= b
    ensures a * d <= b * d
  {
  }

  lemma DivModUnique(x: nat, d: nat, q: nat, r: nat)
    requires d > 0 && r < d && x == q * d + r
    ensures x / d == q && x % d == r
  {
    var q', r' := x / d, x % d;
    assert x == q' * d + r';
    if q' < q {
      MulLe(q' + 1, q, d);
    } else if q < q' {
      MulLe(q + 1, q', d);
    }
  }

  lemma DivMod(x: nat, d: nat)
    requires d > 0
    ensures (x / d) * d + x % d == x && x % d < d
  {
  }

  lemma Divide(x: nat, d: nat) returns (q: nat, r: nat)
    requires d > 0
    ensures x == q * d + r && r < d && r == x % d && q == x / d
  {
    q, r := x / d, x % d;
  }

  lemma BelowDivisor(x: nat, d: nat)
    requires x < d
    ensures x % d == x
  {
  }

  lemma TruncateDown(y: nat, d: nat)
    requires d > 0
    ensures y % d < d && y % d <= y && (y - y % d) % d == 0
  {
    DivMod(y, d);
    DivModUnique(y - y % d, d, y / d, 0);
  }

  lemma {:induction false} Pow2Add(i: nat, j: nat)
    ensures Pow2(i + j) == Pow2(i) * Pow2(j)
  {
    if i > 0 {
      Pow2Add(i - 1, j);
      assert i - 1 + j == i + j - 1;
      MulAssoc(2, Pow2(i - 1), Pow2(j));
    }
  }

  lemma {:induction false} Pow2Monotone(i: nat, j: nat)
    requires i <= j
    ensures Pow2(i) <= Pow2(j)
  {
    if i < j {
      Pow2Monotone(i, j - 1);
    }
  }

  lemma Pow2StrictlyMonotone(i: nat, j: nat)
    ensures i < j <==> Pow2(i) < Pow2(j)
  {
  }

  lemma Pow2At12()
    ensures Pow2(12) == 4096
  {
  }

  lemma Pow2At32()
    ensures Pow2(32) == 0x1_0000_0000
    ensures Pow2(20) == 0x10_0000
  {
    Pow2At12();
    assert Pow2(8) == 256;
    Pow2Add(12, 8);
    Pow2Add(20, 12);
  }

  /** A multiple of a power of two is a multiple of every smaller one. */
  lemma ModPow2Weaken(x: nat, i: nat, j: nat)
    requires i <= j
    requires x % Pow2(j) == 0
    ensures x % Pow2(i) == 0
  {
    Pow2Add(j - i, i);
    var q, d, e := x / Pow2(j), Pow2(j - i), Pow2(i);
    DivMod(x, Pow2(j));
    MulAssoc(q, d, e);
    DivModUnique(x, e, q * d, 0);
  }

  lemma MulAssoc(a: nat, b: nat, c: nat)
    ensures a * (b * c) == (a * b) * c
  {
  }

  // ----- bit operations -----

  lemma {:induction false} AndSelf(x: nat)
    ensures BitAnd(x, x) == x
  {
    if x > 0 {
      AndSelf(x / 2);
    }
  }

  /** AND works on the high and the low bits separately. */
  lemma {:induction false} AndSplit(a: nat, b: nat, c: nat, d: nat, k: nat)
    requires b < Pow2(k) && d < Pow2(k)
    ensures BitAnd(a * Pow2(k) + b, c * Pow2(k) + d) == BitAnd(a, c) * Pow2(k) + BitAnd(b, d)
    decreases k
  {
    if k > 0 {
      AndSplit(a, b / 2, c, d / 2, k - 1);
      AndSplitStep(a, b, c, d, Pow2(k - 1));
    }
  }

  function Join(hi: nat, p: nat, lo: nat): nat {
    hi * p + lo
  }

  lemma AndSplitStep(a: nat, b: nat, c: nat, d: nat, p: nat)
    requires BitAnd(Join(a, p, b / 2), Join(c, p, d / 2)) == Join(BitAnd(a, c), p, BitAnd(b / 2, d / 2))
    ensures BitAnd(Join(a, 2 * p, b), Join(c, 2 * p, d)) == Join(BitAnd(a, c), 2 * p, BitAnd(b, d))
  {
    hide BitAnd;
    var x, y := Join(a, 2 * p, b), Join(c, 2 * p, d);
    HalfSplit(a, b, p);
    HalfSplit(c, d, p);
    AndStep(x, y);
    AndStep(b, d);
    DoubleProduct(BitAnd(a, c), p);
  }

  lemma DoubleProduct(a: nat, p: nat)
    ensures a * (2 * p) == 2 * (a * p)
  {
  }

  lemma HalfSplit(a: nat, b: nat, p: nat)
    ensures (a * (2 * p) + b) / 2 == a * p + b / 2
    ensures (a * (2 * p) + b) % 2 == b % 2
  {
  }

  lemma AndStep(x: nat, y: nat)
    ensures BitAnd(x, y) == (if x % 2 == 1 && y % 2 == 1 then 1 else 0) + 2 * BitAnd(x / 2, y / 2)
  {
  }

  lemma {:induction false} AndOnes(b: nat, k: nat)
    requires b < Pow2(k)
    ensures BitAnd(b, Pow2(k) - 1) == b
  {
    if k > 0 {
      AndOnes(b / 2, k - 1);
      AndOnesStep(b, Pow2(k - 1));
    }
  }

  lemma AndOnesStep(b: nat, p: nat)
    requires p > 0 && BitAnd(b / 2, p - 1) == b / 2
    ensures BitAnd(b, 2 * p - 1) == b
  {
    assert (2 * p - 1) / 2 == p - 1 && (2 * p - 1) % 2 == 1;
    AndStep(b, 2 * p - 1);
  }

  lemma AndLowBits(q: nat, r: nat, p: nat, k: nat)
    requires p == Pow2(k) && r < p
    ensures BitAnd(q * p + r, p - 1) == r
  {
    assert 0 * p + (p - 1) == p - 1;
    AndSplit(q, r, 0, p - 1, k);
    AndOnes(r, k);
  }

  lemma AndHighBits(q: nat, r: nat, h: nat, p: nat, j: nat, k: nat, mask: nat)
    requires p == Pow2(k) && h == Pow2(j) && r < p && q < h
    requires mask == (h - 1) * p
    ensures BitAnd(q * p + r, mask) == q * p
  {
    AndSplit(q, r, h - 1, 0, k);
    AndOnes(q, j);
  }

  /** x & (2^k - 1) is the remainder of x by 2^k. */
  lemma AndLowMask(x: nat, k: nat)
    ensures BitAnd(x, Pow2(k) - 1) == x % Pow2(k)
  {
    var q, r := Divide(x, Pow2(k));
    AndLowBits(q, r, Pow2(k), k);
  }

  /** x & ~(2^k - 1) clears the low k bits. */
  lemma AndHighMask(x: word, k: nat)
    requires k <= 32
    ensures Pow2(k) <= 0x1_0000_0000
    ensures BitAnd(x, Not(Pow2(k) - 1)) == x - x % Pow2(k)
  {
    Pow2Monotone(k, 32);
    Pow2At32();
    Pow2Add(32 - k, k);
    var q, r := DivideBelow(x, Pow2(k), Pow2(32 - k));
    PredTimes(Pow2(32 - k), Pow2(k));
    AndHighBits(q, r, Pow2(32 - k), Pow2(k), 32 - k, k, Not(Pow2(k) - 1));
  }

  lemma DivideBelow(x: nat, p: nat, h: nat) returns (q: nat, r: nat)
    requires p > 0 && x < h * p
    ensures q < h && r < p && r == x % p && q == x / p && x == q * p + r
  {
    q, r := Divide(x, p);
    if q >= h {
      MulLe(h, q, p);
    }
  }

  lemma PredTimes(h: nat, p: nat)
    requires h > 0
    ensures (h - 1) * p == h * p - p
  {
  }

  /** ALIGN rounds up to the next multiple of a power of two when nothing wraps. */
  lemma AlignUp(x: word, k: nat)
    requires k <= 31 && x + Pow2(k) <= 0x1_0000_0000
    ensures Pow2(k) < 0x1_0000_0000
    ensures Align(x, Pow2(k)) % Pow2(k) == 0
    ensures x <= Align(x, Pow2(k)) < x + Pow2(k)
  {
    hide Pow2, BitAnd, Align;
    var p := SmallPow2(k);
    AndHighMask(x + p - 1, k);
    RoundUp(x, p);
  }

  lemma SmallPow2(k: nat) returns (p: word)
    requires k <= 31
    ensures p == Pow2(k) && p <= 0x8000_0000
  {
    Pow2At32();
    Pow2Monotone(k, 31);
    p := Pow2(k);
  }

  lemma RoundUp(x: word, p: word)
    requires p > 0 && x + p <= 0x1_0000_0000
    requires BitAnd(x + p - 1, Not(p - 1)) == x + p - 1 - (x + p - 1) % p
    ensures Align(x, p) % p == 0
    ensures x <= Align(x, p) < x + p
  {
    hide BitAnd, Align;
    var y := x + p - 1;
    TruncateDown(y, p);
    AlignByMask(x, p);
  }

  lemma AlignByMask(x: word, p: word)
    requires p > 0 && x + p <= 0x1_0000_0000
    ensures Align(x, p) == BitAnd(x + p - 1, Not(p - 1))
  {
    hide BitAnd, Wrap, Align;
    AlignIs(x, p);
    WrapSmall(x + (p - 1));
  }

  lemma AlignIs(x: word, p: word)
    requires p > 0
    ensures Align(x, p) == BitAnd(Wrap(x + (p - 1)), Not(p - 1))
  {
    hide BitAnd, Wrap;
    WrapSmall(p - 1);
  }

  lemma WrapSmall(x: nat)
    requires x < 0x1_0000_0000
    ensures Wrap(x) == x
  {
  }

  lemma WrapOnce(x: nat)
    requires 0x1_0000_0000 <= x < 2 * 0x1_0000_0000
    ensures Wrap(x) == x - 0x1_0000_0000
  {
  }

  /** ALIGN yields a multiple even when it wraps. */
  lemma AlignMultiple(x: word, k: nat)
    requires k <= 31
    ensures Pow2(k) < 0x1_0000_0000
    ensures Align(x, Pow2(k)) % Pow2(k) == 0
  {
    hide BitAnd, Pow2, Align, Wrap;
    var p := SmallPow2(k);
    var y := Wrap(x + (p - 1));
    AlignIs(x, p);
    AndHighMask(y, k);
    TruncateDown(y, p);
  }

  /** Close to 2^32 ALIGN wraps to 0. */
  lemma AlignWraps(x: word, k: nat)
    requires k <= 31 && x + Pow2(k) > 0x1_0000_0000
    ensures Pow2(k) < 0x1_0000_0000 && Align(x, Pow2(k)) == 0
    ensures 0x1_0000_0000 % Pow2(k) == 0
  {
    hide Pow2, BitAnd, Wrap, Align;
    var p := SmallPow2(k);
    var y := x + p - 1 - WORD_MOD;
    AlignIs(x, p);
    WrapOnce(x + (p - 1));
    AndHighMask(y, k);
    BelowDivisor(y, p);
    Pow2At32();
    DivMod(0, p);
    ModPow2Weaken(WORD_MOD, k, 32);
  }

  /** Past a multiple, ALIGN goes to the next one. */
  lemma AlignNext(x: word, d: nat, k: nat)
    requires k <= 31 && 0 < d <= Pow2(k) && x + 2 * Pow2(k) <= 0x1_0000_0000
    requires x % Pow2(k) == 0
    ensures Pow2(k) < 0x1_0000_0000
    ensures x + d < 0x1_0000_0000 && Align(x + d, Pow2(k)) == x + Pow2(k)
  {
    var p := SmallPow2(k);
    AlignUp(x + d, k);
    NextMultiple(x, Align(x + d, p), p);
  }

  lemma NextMultiple(x: nat, y: nat, d: nat)
    requires d > 0 && x % d == 0 && y % d == 0 && x < y < x + 2 * d
    ensures y == x + d
  {
    DivMod(x, d);
    DivModUnique(x + d, d, x / d + 1, 0);
    if y < x + d {
      MultiplesApart(x, y, d);
    } else {
      MultiplesApart(x + d, y, d);
    }
  }

  /** A multiple is its own ALIGN. */
  lemma AlignFixed(x: word, k: nat)
    requires k <= 31 && x + Pow2(k) <= 0x1_0000_0000
    requires x % Pow2(k) == 0
    ensures Pow2(k) < 0x1_0000_0000
    ensures Align(x, Pow2(k)) == x
  {
    AlignUp(x, k);
    MultiplesApart(x, Align(x, Pow2(k)), Pow2(k));
  }

  /** Two multiples of d less than d apart are equal. */
  lemma MultiplesApart(x: nat, y: nat, d: nat)
    requires d > 0 && x % d == 0 && y % d == 0 && x <= y < x + d
    ensures x == y
  {
    DivMod(x, d);
    DivMod(y, d);
    if x / d < y / d {
      MulLe(x / d + 1, y / d, d);
    }
  }

  /** OR of bits that do not overlap is addition. */
  lemma {:induction false} OrDisjoint(a: nat, b: nat, k: nat)
    requires b < Pow2(k)
    ensures BitOr(a * Pow2(k), b) == a * Pow2(k) + b
  {
    if k == 0 {
    } else {
      var p := Pow2(k - 1);
      OrDisjoint(a, b / 2, k - 1);
      HalfSplit(a, 0, p);
      HalfSplit(a, b, p);
    }
  }

  lemma OrStep(x: nat, y: nat)
    ensures BitOr(x, y) == (if x % 2 == 1 || y % 2 == 1 then 1 else 0) + 2 * BitOr(x / 2, y / 2)
  {
  }

  lemma OrAssocStep(x: nat, y: nat, z: nat)
    requires BitOr(BitOr(x / 2, y / 2), z / 2) == BitOr(x / 2, BitOr(y / 2, z / 2))
    ensures BitOr(BitOr(x, y), z) == BitOr(x, BitOr(y, z))
  {
    hide BitOr;
    OrHalves(x, y);
    OrHalves(y, z);
    OrStep(BitOr(x, y), z);
    OrStep(x, BitOr(y, z));
  }

  lemma OrHalves(x: nat, y: nat)
    ensures BitOr(x, y) / 2 == BitOr(x / 2, y / 2)
    ensures BitOr(x, y) % 2 == if x % 2 == 1 || y % 2 == 1 then 1 else 0
  {
    OrStep(x, y);
  }

  lemma {:induction false} OrAssoc(x: nat, y: nat, z: nat)
    ensures BitOr(BitOr(x, y), z) == BitOr(x, BitOr(y, z))
  {
    if x > 0 && y > 0 && z > 0 {
      OrAssoc(x / 2, y / 2, z / 2);
      OrAssocStep(x, y, z);
    }
  }

  /** n & (n - 1) is zero exactly for the powers of two. */
  lemma {:induction false} PowerOf2Test(n: word)
    ensures IsPowerOf2(n) <==> IsPow2(n)
  {
    if n == 1 {
      assert n == Pow2(0);
    } else if n % 2 == 1 {
      AndStep(n, n - 1);
      AndSelf(n / 2);
      OddPow2(n);
    } else if n > 0 {
      AndStep(n, n - 1);
      assert (n - 1) / 2 == n / 2 - 1;
      PowerOf2Test(n / 2);
      EvenPow2(n / 2);
    }
  }

  lemma OddPow2(n: nat)
    requires n % 2 == 1 && n != 1
    ensures !IsPow2(n)
  {
  }

  lemma EvenPow2(m: nat)
    requires m > 0
    ensures IsPow2(2 * m) <==> IsPow2(m)
  {
    if k: nat :| 2 * m == Pow2(k) {
      assert m == Pow2(k - 1);
    } else if k: nat :| m == Pow2(k) {
      assert 2 * m == Pow2(k + 1);
    }
  }

  lemma {:induction false} LeadingZerosBound(n: nat, width: nat)
    requires n < Pow2(width)
    ensures n > 0 ==> LeadingZeros(n, width) < width
    ensures n > 0 ==> Pow2(width - 1 - LeadingZeros(n, width)) <= n < Pow2(width - LeadingZeros(n, width))
  {
    if width > 0 && n < Pow2(width - 1) {
      LeadingZerosBound(n, width - 1);
    }
  }

  /** fls is the floor of the binary logarithm. */
  lemma FlsBound(n: word)
    requires n > 0
    ensures Pow2(Fls(n)) <= n < Pow2(Fls(n) + 1) && Fls(n) < 32
  {
    Pow2At32();
    LeadingZerosBound(n, 32);
  }
}
