/** 32-bit machine words as the integers they stand for in two's complement, and the
    bit-level operations the generated code uses on them. */
module Words {

  const TWO31 := 0x8000_0000
  const TWO32 := 0x1_0000_0000

  predicate IsWord(x: int) {
    -TWO31 <= x < TWO31
  }

  /** Keeps the low 32 bits. */
  function Wrap(x: int): (w: int)
    ensures IsWord(w)
    ensures IsWord(x) ==> w == x
    ensures exists k: int :: x == w + k * TWO32
  {
    var w := (x + TWO31) % TWO32 - TWO31;
    assert x == w + ((x + TWO31) / TWO32) * TWO32;
    w
  }

  /** The low 32 bits determine the word. */
  lemma WrapUnique(x: int, y: int, k: int)
    requires x == y + k * TWO32
    ensures Wrap(x) == Wrap(y)
  {
    var i :| x == Wrap(x) + i * TWO32;
    var j :| y == Wrap(y) + j * TWO32;
    assert Wrap(x) - Wrap(y) == (k + j - i) * TWO32;
  }

  /** An addition that wrapped is undone by subtracting what was added. */
  lemma WrapAddSub(x: int, c: int)
    requires IsWord(x)
    ensures Wrap(Wrap(x + c) - c) == x
  {
    var k :| x + c == Wrap(x + c) + k * TWO32;
    WrapUnique(Wrap(x + c) - c, x, -k);
  }

  function Pow2(n: nat): (p: nat)
    ensures p >= 1
  {
    if n == 0 then 1 else 2 * Pow2(n - 1)
  }

  // --------------------------------------------------------------- bitwise

  datatype BitOp = And | Or | Xor

  function BitOf(op: BitOp, a: int, b: int): int {
    match op
    case And => if a == 1 && b == 1 then 1 else 0
    case Or => if a == 1 || b == 1 then 1 else 0
    case Xor => if a != b then 1 else 0
  }

  /** The operation on the low `n` bits and on the sign, which all higher bits repeat. */
  function Bitwise(op: BitOp, x: int, y: int, n: nat): int
    decreases n
  {
    if n == 0 then -BitOf(op, if x < 0 then 1 else 0, if y < 0 then 1 else 0)
    else 2 * Bitwise(op, x / 2, y / 2, n - 1) + BitOf(op, x % 2, y % 2)
  }

  predicate Fits(x: int, n: nat) {
    0 - Pow2(n) <= x < Pow2(n)
  }

  lemma HalfFits(x: int, n: nat)
    requires n > 0 && Fits(x, n)
    ensures Fits(x / 2, n - 1)
  {
  }

  lemma {:induction false} BitwiseFits(op: BitOp, x: int, y: int, n: nat)
    ensures Fits(Bitwise(op, x, y, n), n)
    decreases n
  {
    if n > 0 { BitwiseFits(op, x / 2, y / 2, n - 1); }
  }

  /** Further sign bits change nothing. */
  lemma {:induction false} BitwiseWiden(op: BitOp, x: int, y: int, n: nat)
    requires Fits(x, n) && Fits(y, n)
    ensures Bitwise(op, x, y, n + 1) == Bitwise(op, x, y, n)
    decreases n
  {
    if n > 0 {
      HalfFits(x, n);
      HalfFits(y, n);
      BitwiseWiden(op, x / 2, y / 2, n - 1);
    }
  }

  lemma {:induction false} XorZero(x: int, n: nat)
    requires Fits(x, n)
    ensures Bitwise(Xor, x, 0, n) == x
    decreases n
  {
    if n > 0 {
      HalfFits(x, n);
      XorZero(x / 2, n - 1);
    }
  }

  lemma {:induction false} XorOnes(x: int, n: nat)
    requires Fits(x, n)
    ensures Bitwise(Xor, x, -1, n) == -1 - x
    decreases n
  {
    if n > 0 {
      HalfFits(x, n);
      XorOnes(x / 2, n - 1);
    }
  }

  lemma {:induction false} OrZero(x: int, n: nat)
    requires Fits(x, n)
    ensures Bitwise(Or, x, 0, n) == x
    decreases n
  {
    if n > 0 {
      HalfFits(x, n);
      OrZero(x / 2, n - 1);
    }
  }

  lemma {:induction false} AndZero(x: int, n: nat)
    ensures Bitwise(And, x, 0, n) == 0
    decreases n
  {
    if n > 0 { AndZero(x / 2, n - 1); }
  }

  lemma {:induction false} AndOnes(x: int, n: nat)
    requires Fits(x, n)
    ensures Bitwise(And, x, -1, n) == x
    decreases n
  {
    if n > 0 {
      HalfFits(x, n);
      AndOnes(x / 2, n - 1);
    }
  }

  lemma BitwiseStep(op: BitOp, x: int, y: int, n: nat)
    ensures Bitwise(op, x, y, n + 1) == 2 * Bitwise(op, x / 2, y / 2, n) + BitOf(op, x % 2, y % 2)
  {
  }

  /** The word operations. */
  function AndWords(x: int, y: int): (r: int)
    ensures IsWord(r)
  {
    BitwiseFits(And, x, y, 31);
    Pow2At31();
    Bitwise(And, x, y, 31)
  }

  function OrWords(x: int, y: int): (r: int)
    ensures IsWord(r)
  {
    BitwiseFits(Or, x, y, 31);
    Pow2At31();
    Bitwise(Or, x, y, 31)
  }

  function XorWords(x: int, y: int): (r: int)
    ensures IsWord(r)
  {
    BitwiseFits(Xor, x, y, 31);
    Pow2At31();
    Bitwise(Xor, x, y, 31)
  }

  lemma Pow2At31()
    ensures Pow2(31) == TWO31 && Pow2(30) == TWO31 / 2
    ensures Pow2(28) == TWO31 / 8 && Pow2(27) == TWO31 / 16 && Pow2(26) == TWO31 / 32
  {
    Pow2Add(5);
    Pow2Add(10);
    Pow2Add(15);
    Pow2Add(20);
    Pow2Add(25);
  }

  lemma Pow2Add(n: nat)
    ensures Pow2(n + 5) == 32 * Pow2(n)
  {
    assert Pow2(n + 2) == 4 * Pow2(n);
    assert Pow2(n + 4) == 4 * Pow2(n + 2);
  }

  lemma MaskHalves(k: nat)
    requires k > 0
    ensures (Pow2(k) - 1) / 2 == Pow2(k - 1) - 1 && (Pow2(k) - 1) % 2 == 1
    ensures Pow2(k) == 2 * Pow2(k - 1) && Pow2(k - 1) >= 1
  {
    OddHalf(Pow2(k - 1));
  }

  lemma OddHalf(p: int)
    ensures (2 * p - 1) / 2 == p - 1 && (2 * p - 1) % 2 == 1
  {
  }

  /** The low bits of a mask of ones: `x & (2^k - 1)`. */
  lemma {:induction false} AndMask(x: int, k: nat, n: nat)
    requires k <= n
    ensures Bitwise(And, x, Pow2(k) - 1, n) == x % Pow2(k)
    decreases n
  {
    hide Bitwise, Pow2;
    NoMask();
    if k == 0 {
      AndZero(x, n);
    } else {
      AndMask(x / 2, k - 1, n - 1);
      MaskHalves(k);
      ModDouble(x, Pow2(k - 1));
      BitwiseStep(And, x, Pow2(k) - 1, n - 1);
    }
  }

  lemma NoMask()
    ensures Pow2(0) - 1 == 0
  {
  }

  lemma ModDouble(x: int, p: nat)
    requires p >= 1
    ensures x % (2 * p) == 2 * ((x / 2) % p) + x % 2
  {
    var q, r := (x / 2) / p, (x / 2) % p;
    assert x == q * (2 * p) + (2 * r + x % 2);
    ModUnique(x, 2 * p, q, 2 * r + x % 2);
  }

  lemma ModUnique(x: int, m: nat, q: int, r: int)
    requires m > 0 && x == q * m + r && 0 <= r < m
    ensures x % m == r && x / m == q
  {
    var d := x / m - q;
    assert d * m == r - x % m;
    assert d > 0 ==> d * m >= m;
    assert d < 0 ==> d * m <= 0 - m;
  }

  // ---------------------------------------------------------------- shifts

  /** `shll`: the count is taken modulo 32. */
  function ShiftLeft(x: int, count: int): int {
    Wrap(x * Pow2(count % 32))
  }

  /** `sarl` */
  function ShiftRight(x: int, count: int): int {
    x / Pow2(count % 32)
  }

  lemma {:induction false} ShiftRightOdd(a: int, k: nat)
    ensures (2 * a + 1) / Pow2(k) == if k == 0 then 2 * a + 1 else a / Pow2(k - 1)
    decreases k
  {
    if k > 0 { DivDouble(2 * a + 1, Pow2(k - 1)); }
  }

  /** Bit `k` of a word. */
  function Bit(x: int, k: nat): bool {
    (x / Pow2(k)) % 2 == 1
  }

  /** The operations act bit by bit. */
  lemma {:induction false} BitwiseBits(op: BitOp, x: int, y: int, n: nat, k: nat)
    requires k < n
    ensures Bit(Bitwise(op, x, y, n), k) <==>
      match op
      case And => Bit(x, k) && Bit(y, k)
      case Or => Bit(x, k) || Bit(y, k)
      case Xor => Bit(x, k) != Bit(y, k)
    decreases k
  {
    hide Bit, Bitwise;
    var r, b := Bitwise(op, x / 2, y / 2, n - 1), BitOf(op, x % 2, y % 2);
    BitwiseStep(op, x, y, n - 1);
    Joined(r, b);
    if k == 0 {
      BitZero(x);
      BitZero(y);
      BitZero(2 * r + b);
    } else {
      BitwiseBits(op, x / 2, y / 2, n - 1, k - 1);
      BitUp(x, k);
      BitUp(y, k);
      BitUp(2 * r + b, k);
    }
  }

  lemma Joined(r: int, b: int)
    requires b == 0 || b == 1
    ensures (2 * r + b) / 2 == r && (2 * r + b) % 2 == b
  {
  }

  lemma BitZero(x: int)
    ensures Bit(x, 0) <==> x % 2 == 1
  {
  }

  lemma BitUp(x: int, k: nat)
    requires k > 0
    ensures Bit(x, k) == Bit(x / 2, k - 1)
  {
    DivDouble(x, Pow2(k - 1));
  }

  lemma DivDouble(x: int, p: nat)
    requires p >= 1
    ensures x / (2 * p) == (x / 2) / p
  {
    var q, r := (x / 2) / p, (x / 2) % p;
    assert x == q * (2 * p) + (2 * r + x % 2);
    ModUnique(x, 2 * p, q, 2 * r + x % 2);
  }

  lemma TimesGrows(a: int, b: int, p: nat)
    requires a <= b
    ensures a * p <= b * p
  {
  }

  lemma DivWithin(x: int, p: nat, lo: int, hi: int)
    requires p >= 1 && lo <= x < hi && lo <= 0 < hi
    ensures lo <= x / p < hi
  {
    var q := x / p;
    assert x == q * p + x % p;
    if q < lo {
      TimesGrows(q + 1, lo, p);
      TimesGrows(1, p, -lo);
      assert false;
    } else if q >= hi {
      TimesGrows(hi, q, p);
      TimesGrows(1, p, hi);
      assert false;
    }
  }
}
