/** The code the JIT emits for arithmetic on immediate integers, as functions from the
    words in the operand registers to what the code does with them.

    A 31-bit integer n is the word 2n + 1.  Each fast path either stores the word of the
    exact result or leaves for a slow path with the operands recoverable. */
module TaggedArith {
  import opened Words

  const FALSE_WORD := 6
  const TRUE_WORD := 0x16
  const NULL_WORD := 2
  const UNDEFINED_WORD := 10

  datatype Regs = Regs(eax: int, ecx: int, edx: int)

  /** `Slow(k, _)` leaves by the k-th slow case the instruction planted. */
  datatype Exit = Done(result: int) | Branch(taken: bool) | Slow(entry: nat, regs: Regs)

  function Tag(n: int): int { 2 * n + 1 }

  predicate IsInteger(w: int) { w % 2 == 1 }

  /** `sarl $1` */
  function Untag(w: int): int { w / 2 }

  predicate IsImmediateInt(n: int) { -0x4000_0000 <= n < 0x4000_0000 }

  predicate IsCell(w: int) { w % 4 == 0 }

  /** The words that stand for values. */
  predicate IsValue(w: int) {
    IsWord(w) && (IsInteger(w) || IsCell(w) || w in {FALSE_WORD, TRUE_WORD, NULL_WORD, UNDEFINED_WORD})
  }

  // -------------------------------------------- what the language computes

  datatype Number = Integer(n: int) | NegativeZero | NotANumber

  function Plus(a: int, b: int): Number { Integer(a + b) }

  function Minus(a: int, b: int): Number { Integer(a - b) }

  function Times(a: int, b: int): Number {
    if a * b == 0 && (a < 0 || b < 0) then NegativeZero else Integer(a * b)
  }

  function Negated(a: int): Number {
    if a == 0 then NegativeZero else Integer(-a)
  }

  function Abs(a: int): nat { if a < 0 then -a else a }

  /** The remainder of division towards zero. */
  function TruncatedRemainder(a: int, b: int): int
    requires b != 0
  {
    if a < 0 then -(Abs(a) % Abs(b)) else Abs(a) % Abs(b)
  }

  function Remainder(a: int, b: int): Number {
    if b == 0 then NotANumber
    else if a < 0 && TruncatedRemainder(a, b) == 0 then NegativeZero
    else Integer(TruncatedRemainder(a, b))
  }

  function ShiftedLeft(a: int, b: int): Number { Integer(Wrap(a * Pow2(b % 32))) }

  function ShiftedRight(a: int, b: int): Number { Integer(a / Pow2(b % 32)) }

  /** The fast path is taken exactly when both operands are immediate integers and the
      result is one too; then it stores that result. */
  predicate Exact(e: Exit, integers: bool, r: Number) {
    if integers && r.Integer? && IsImmediateInt(r.n) then e == Done(Tag(r.n)) else e.Slow?
  }

  // ------------------------------------------------------ emitted sequences
  //
  // The slow paths of addition, subtraction, multiplication and negation load their operands
  // from the register file, where they still are; all others hand on registers.

  /** An addition, with its overflow flag. */
  function AddL(x: int, y: int): (int, bool) {
    (Wrap(x + y), Wrap(x + y) != x + y)
  }

  function SubL(x: int, y: int): (int, bool) {
    (Wrap(x - y), Wrap(x - y) != x - y)
  }

  function MulL(x: int, y: int): (int, bool) {
    (Wrap(x * y), Wrap(x * y) != x * y)
  }

  function AddFast(src1: int, src2: int): Exit {
    var ecx := AndWords(src1, src2);
    if ecx % 2 == 0 then Slow(0, Regs(src1, ecx, src2))
    else
      var (eax, overflow) := AddL(SubL(src1, 1).0, src2);
      if overflow then Slow(1, Regs(eax, ecx, src2)) else Done(eax)
  }

  function SubFast(src1: int, src2: int): Exit {
    var ecx := AndWords(src1, src2);
    if ecx % 2 == 0 then Slow(0, Regs(src1, ecx, src2))
    else
      var (eax, overflow) := SubL(src1, src2);
      if overflow then Slow(1, Regs(eax, ecx, src2)) else Done(AddL(eax, 1).0)
  }

  function MulFast(src1: int, src2: int): Exit {
    var ecx := AndWords(src1, src2);
    if ecx % 2 == 0 then Slow(0, Regs(src1, ecx, src2))
    else
      var edx := Untag(src2);
      var eax := SubL(src1, 1).0;
      // If either operand is zero, a negative sum means the product is -0.
      var ecx' := if eax == 0 || edx == 0 then AddL(eax, edx).0 else ecx;
      if (eax == 0 || edx == 0) && ecx' < 0 then Slow(1, Regs(eax, ecx', edx))
      else
        var (product, overflow) := MulL(eax, edx);
        if overflow then Slow(2, Regs(product, ecx', edx)) else Done(AddL(product, 1).0)
  }

  /** One operand is a constant; `constant` is its tagged word. */
  function AddConstFast(src: int, constant: int): Exit {
    if src % 2 == 0 then Slow(0, Regs(src, 0, 0))
    else
      var (eax, overflow) := AddL(src, constant - 1);
      if overflow then Slow(1, Regs(eax, 0, 0)) else Done(eax)
  }

  /** The operand the slow path hands on: the addition is undone first. */
  function AddConstSlowArg(e: Exit, constant: int): int
    requires e.Slow?
  {
    if e.entry == 0 then e.regs.eax else SubL(e.regs.eax, constant - 1).0
  }

  function IncFast(src: int): Exit { AddConstFast(src, Tag(1)) }

  function DecFast(src: int): Exit {
    if src % 2 == 0 then Slow(0, Regs(src, 0, 0))
    else
      var (eax, overflow) := SubL(src, 2);
      if overflow then Slow(1, Regs(eax, 0, 0)) else Done(eax)
  }

  function DecSlowArg(e: Exit): int
    requires e.Slow?
  {
    if e.entry == 0 then e.regs.eax else AddL(e.regs.eax, 2).0
  }

  /** Multiplication by a constant greater than zero. */
  function MulConstFast(src: int, constant: int): Exit {
    if src % 2 == 0 then Slow(0, Regs(src, 0, 0))
    else
      var (eax, overflow) := MulL(SubL(src, 1).0, Untag(constant));
      if overflow then Slow(1, Regs(eax, 0, 0)) else Done(AddL(eax, 1).0)
  }

  function NegateFast(src: int): Exit {
    if src % 2 == 0 then Slow(0, Regs(src, 0, 0))
    else if src == Tag(0) then Slow(1, Regs(src, 0, 0))
    else
      var eax := Wrap(-Untag(src));
      var (doubled, overflow) := AddL(eax, eax);
      if overflow then Slow(2, Regs(doubled, 0, 0)) else Done(AddL(doubled, 1).0)
  }

  function ModFast(src1: int, src2: int): Exit {
    if src1 % 2 == 0 then Slow(0, Regs(src1, src2, 0))
    else if src2 % 2 == 0 then Slow(1, Regs(src1, src2, 0))
    else
      var eax, ecx := SubL(src1, 1).0, SubL(src2, 1).0;
      if ecx == 0 then Slow(2, Regs(eax, ecx, 0))
      else Done(AddL(TruncatedRemainder(eax, ecx), 1).0)
  }

  function ModSlowArgs(e: Exit): (int, int)
    requires e.Slow?
  {
    if e.entry == 2 then (AddL(e.regs.eax, 1).0, AddL(e.regs.ecx, 1).0) else (e.regs.eax, e.regs.ecx)
  }

  function LshiftFast(src1: int, src2: int): Exit {
    if src1 % 2 == 0 then Slow(0, Regs(src1, src2, 0))
    else if src2 % 2 == 0 then Slow(1, Regs(src1, src2, 0))
    else
      var eax, ecx := ShiftLeft(Untag(src1), Untag(src2)), Untag(src2);
      var (doubled, overflow) := AddL(eax, eax);
      if overflow then Slow(2, Regs(doubled, ecx, 0)) else Done(AddL(doubled, 1).0)
  }

  /** The registers are spoilt when the last slow case is taken; there the slow path loads
      both operands afresh from the register file, where they still are. */
  function LshiftSlowArgs(e: Exit, src1: int, src2: int): (int, int)
    requires e.Slow?
  {
    if e.entry == 2 then (src1, src2) else (e.regs.eax, e.regs.ecx)
  }

  /** The shifted word is not untagged: setting its lowest bit tags it again. */
  function RshiftFast(src1: int, src2: int): Exit {
    if src1 % 2 == 0 then Slow(0, Regs(src1, src2, 0))
    else if src2 % 2 == 0 then Slow(1, Regs(src1, src2, 0))
    else Done(OrWords(ShiftRight(src1, Untag(src2)), 1))
  }

  function BitAndFast(src1: int, src2: int): Exit {
    var eax := AndWords(src1, src2);
    if eax % 2 == 0 then Slow(0, Regs(eax, src1, src2)) else Done(eax)
  }

  /** The slow path reloads the first operand; the second is still in edx. */
  function BitAndSlowArgs(e: Exit, src1: int): (int, int)
    requires e.Slow?
  {
    (src1, e.regs.edx)
  }

  function BitAndConstFast(src: int, constant: int): Exit {
    if src % 2 == 0 then Slow(0, Regs(src, 0, 0)) else Done(AndWords(src, constant))
  }

  /** The slow path hands on the operand still in eax, and the constant. */
  function BitAndConstSlowArg(e: Exit): int
    requires e.Slow?
  {
    e.regs.eax
  }

  function BitOrFast(src1: int, src2: int): Exit {
    var ecx := AndWords(src1, src2);
    if ecx % 2 == 0 then Slow(0, Regs(src1, ecx, src2)) else Done(OrWords(src1, src2))
  }

  function BitXorFast(src1: int, src2: int): Exit {
    var ecx := AndWords(src1, src2);
    if ecx % 2 == 0 then Slow(0, Regs(src1, ecx, src2)) else Done(AddL(XorWords(src1, src2), 1).0)
  }

  function BitNotFast(src: int): Exit {
    if src % 2 == 0 then Slow(0, Regs(src, 0, 0)) else Done(XorWords(src, -2))
  }

  function NotFast(src: int): Exit {
    var eax := XorWords(src, 6);
    if AndWords(eax, 15) != 0 then Slow(0, Regs(eax, 0, 0)) else Done(XorWords(eax, 0x16))
  }

  function NotSlowArg(e: Exit): int
    requires e.Slow?
  {
    XorWords(e.regs.eax, 6)
  }

  /** `op_eq`; `op_neq` stores the negated condition. */
  function EqFast(src1: int, src2: int, negated: bool): Exit {
    var ecx := AndWords(src1, src2);
    if ecx % 2 == 0 then Slow(0, Regs(src1, ecx, src2))
    else Done(TagAsBool(if (src1 == src2) != negated then 1 else 0))
  }

  function TagAsBool(bit: int): int { OrWords(ShiftLeft(bit, 4), 6) }

  datatype Condition = IfLess | IfLessOrEqual | IfNotLess

  function Holds(c: Condition, a: int, b: int): bool {
    match c
    case IfLess => a < b
    case IfLessOrEqual => a <= b
    case IfNotLess => a >= b
  }

  function CompareFast(c: Condition, src1: int, src2: int): Exit {
    if src1 % 2 == 0 then Slow(0, Regs(src1, 0, src2))
    else if src2 % 2 == 0 then Slow(1, Regs(src1, 0, src2))
    else Branch(Holds(c, src1, src2))
  }

  function JTrueFast(src: int): Exit {
    if src == Tag(0) then Branch(false)
    else if src % 2 == 1 then Branch(true)
    else if src == TRUE_WORD then Branch(true)
    else if src != FALSE_WORD then Slow(0, Regs(src, 0, 0))
    else Branch(false)
  }

  function JFalseFast(src: int): Exit {
    if src == Tag(0) then Branch(true)
    else if src % 2 == 1 then Branch(false)
    else if src == FALSE_WORD then Branch(true)
    else if src != TRUE_WORD then Slow(0, Regs(src, 0, 0))
    else Branch(false)
  }

  /** The test of `eq_null` on an immediate. */
  predicate EqNullImmediate(src: int) {
    AndWords(src, -9) == NULL_WORD
  }

  /** `get_by_val` up to the load: the untagged index, if it is below the fast cutoff.
      The comparison is unsigned. */
  function IndexFast(index: int, isArray: bool, cutoff: nat): Exit {
    if index % 2 == 0 then Slow(0, Regs(0, 0, index))
    else
      var edx := Untag(index);
      if !isArray then Slow(1, Regs(0, 0, edx))
      else if cutoff <= (if edx < 0 then edx + TWO32 else edx) then Slow(3, Regs(0, 0, edx))
      else Done(edx)
  }

  function IndexSlowArg(e: Exit): int
    requires e.Slow?
  {
    if e.entry == 0 then e.regs.edx else AddL(AddL(e.regs.edx, e.regs.edx).0, 1).0
  }

  // ------------------------------------------------------------- exactness

  lemma BothTagged(x: int, y: int)
    ensures AndWords(x, y) % 2 == 1 <==> IsInteger(x) && IsInteger(y)
  {
    hide Bitwise;
    BitwiseStep(And, x, y, 30);
  }

  lemma AddExact(src1: int, src2: int)
    requires IsWord(src1) && IsWord(src2)
    ensures Exact(AddFast(src1, src2), IsInteger(src1) && IsInteger(src2), Plus(Untag(src1), Untag(src2)))
  {
    BothTagged(src1, src2);
  }

  lemma SubExact(src1: int, src2: int)
    requires IsWord(src1) && IsWord(src2)
    ensures Exact(SubFast(src1, src2), IsInteger(src1) && IsInteger(src2), Minus(Untag(src1), Untag(src2)))
  {
    BothTagged(src1, src2);
  }

  /** Leaves for the slow path whenever the product is -0. */
  lemma MulExact(src1: int, src2: int)
    requires IsWord(src1) && IsWord(src2)
    ensures Exact(MulFast(src1, src2), IsInteger(src1) && IsInteger(src2), Times(Untag(src1), Untag(src2)))
  {
    hide AndWords;
    BothTagged(src1, src2);
    if IsInteger(src1) && IsInteger(src2) {
      var a, b := Untag(src1), Untag(src2);
      assert SubL(src1, 1).0 == 2 * a;
      ProductFacts(a, b);
    }
  }

  lemma ProductFacts(a: int, b: int)
    ensures MulL(2 * a, b).1 <==> !IsImmediateInt(a * b)
    ensures IsImmediateInt(a * b) ==> MulL(2 * a, b).0 == 2 * (a * b)
    ensures a * b == 0 <==> a == 0 || b == 0
  {
    var p := a * b;
    assert (2 * a) * b == 2 * p;
  }

  lemma MulConstExact(src: int, constant: int)
    requires IsWord(src) && IsWord(constant) && IsInteger(constant) && Untag(constant) > 0
    ensures Exact(MulConstFast(src, constant), IsInteger(src), Times(Untag(src), Untag(constant)))
  {
    var a, b := Untag(src), Untag(constant);
    if IsInteger(src) {
      assert src - 1 == 2 * a;
      assert (2 * a) * b == 2 * (a * b);
      assert a * b == 0 <==> a == 0 || b == 0;
    }
  }

  lemma AddConstExact(src: int, constant: int)
    requires IsWord(src) && IsWord(constant) && IsInteger(constant)
    ensures var e := AddConstFast(src, constant);
      && Exact(e, IsInteger(src), Plus(Untag(src), Untag(constant)))
      && (e.Slow? ==> AddConstSlowArg(e, constant) == src)
  {
    WrapAddSub(src, constant - 1);
  }

  lemma IncExact(src: int)
    requires IsWord(src)
    ensures Exact(IncFast(src), IsInteger(src), Plus(Untag(src), 1))
    ensures IncFast(src).Slow? ==> AddConstSlowArg(IncFast(src), Tag(1)) == src
  {
    AddConstExact(src, Tag(1));
  }

  lemma DecExact(src: int)
    requires IsWord(src)
    ensures Exact(DecFast(src), IsInteger(src), Minus(Untag(src), 1))
    ensures DecFast(src).Slow? ==> DecSlowArg(DecFast(src)) == src
  {
    WrapAddSub(src, -2);
  }

  /** Leaves for the slow path on 0, whose negation is -0. */
  lemma NegateExact(src: int)
    requires IsWord(src)
    ensures Exact(NegateFast(src), IsInteger(src), Negated(Untag(src)))
  {
  }

  lemma RemainderDoubles(a: int, b: int)
    requires b != 0
    ensures TruncatedRemainder(2 * a, 2 * b) == 2 * TruncatedRemainder(a, b)
    ensures 0 - Abs(b) < TruncatedRemainder(a, b) < Abs(b)
  {
    var q, r := Abs(a) / Abs(b), Abs(a) % Abs(b);
    assert Abs(a) == q * Abs(b) + r;
    assert 2 * Abs(a) == q * (2 * Abs(b)) + 2 * r;
    ModUnique(2 * Abs(a), 2 * Abs(b), q, 2 * r);
  }

  /** What division towards zero leaves: nothing, or less than the divisor and with the sign
      of the dividend. */
  ghost predicate Leaves(a: int, b: int, r: int) {
    && (exists q: int :: a == q * b + r)
    && (if b < 0 then b < r < -b else -b < r < b)
    && (a < 0 ==> r <= 0) && (a >= 0 ==> r >= 0)
  }

  lemma TruncatedLeaves(a: int, b: int)
    requires b != 0
    ensures Leaves(a, b, TruncatedRemainder(a, b))
  {
    hide Leaves;
    SignedParts(a, b, Abs(a) / Abs(b), Abs(a) % Abs(b));
  }

  lemma SignedParts(a: int, b: int, q: int, r: int)
    requires Abs(a) == q * Abs(b) + r && 0 <= r < Abs(b)
    ensures Leaves(a, b, if a < 0 then -r else r)
  {
    MinusProduct(q, b);
    if (a < 0) == (b < 0) {
      assert a == q * b + if a < 0 then -r else r;
    } else {
      assert a == (-q) * b + if a < 0 then -r else r;
    }
  }

  lemma LeavesOnce(a: int, b: int, r: int, s: int)
    requires b != 0 && Leaves(a, b, r) && Leaves(a, b, s)
    ensures r == s
  {
    var p, q :| a == p * b + r && a == q * b + s;
    assert (p - q) * b == s - r;
    SmallMultiple(p - q, b);
  }

  lemma SmallMultiple(d: int, b: int)
    requires b != 0 && (if b < 0 then b < d * b < -b else -b < d * b < b)
    ensures d == 0
  {
    assert d > 0 && b > 0 ==> d * b >= b;
    assert d < 0 && b > 0 ==> d * b <= -b;
    assert d > 0 && b < 0 ==> d * b <= b;
    assert d < 0 && b < 0 ==> d * b >= -b;
  }

  /** Whatever the fast path stores is what division towards zero leaves, and nothing else is. */
  lemma ModLeaves(src1: int, src2: int)
    requires IsWord(src1) && IsWord(src2) && IsInteger(src1) && IsInteger(src2)
    ensures var e, a, b := ModFast(src1, src2), Untag(src1), Untag(src2);
      if b == 0 then e.Slow?
      else forall r: int :: e == Done(Tag(r)) <==> Leaves(a, b, r)
  {
    var e, a, b := ModFast(src1, src2), Untag(src1), Untag(src2);
    if b != 0 {
      assert src1 - 1 == 2 * a && src2 - 1 == 2 * b;
      RemainderDoubles(a, b);
      TruncatedLeaves(a, b);
      assert e == Done(Tag(TruncatedRemainder(a, b)));
      forall r: int ensures e == Done(Tag(r)) <==> Leaves(a, b, r) {
        if Leaves(a, b, r) { LeavesOnce(a, b, r, TruncatedRemainder(a, b)); }
      }
    }
  }

  /** Exact but for -0: a negative multiple of the divisor gives +0 instead. */
  lemma ModExactIff(src1: int, src2: int)
    requires IsWord(src1) && IsWord(src2)
    ensures var e, a, b := ModFast(src1, src2), Untag(src1), Untag(src2);
      && (Exact(e, IsInteger(src1) && IsInteger(src2), Remainder(a, b)) <==>
            !(IsInteger(src1) && IsInteger(src2) && a < 0 && b != 0 && a % b == 0))
      && (!Exact(e, IsInteger(src1) && IsInteger(src2), Remainder(a, b)) ==> e == Done(Tag(0)))
      && (e.Slow? ==> ModSlowArgs(e) == (src1, src2))
  {
    var a, b := Untag(src1), Untag(src2);
    if IsInteger(src1) && IsInteger(src2) && b != 0 {
      assert src1 - 1 == 2 * a && src2 - 1 == 2 * b;
      RemainderDoubles(a, b);
      DividesAbs(a, b);
    }
  }

  /** Divisibility does not depend on signs. */
  lemma DividesAbs(a: int, b: int)
    requires b != 0
    ensures Abs(a) % Abs(b) == 0 <==> a % b == 0
  {
    if a % b == 0 { AbsDivisible(a, b); }
    if Abs(a) % Abs(b) == 0 { DivisibleAbs(a, b); }
  }

  lemma AbsDivisible(a: int, b: int)
    requires b != 0 && a % b == 0
    ensures Abs(a) % Abs(b) == 0
  {
    if a < 0 { MinusDivisible(a, b); }
    if b < 0 { DivisibleByMinus(Abs(a), b); }
  }

  lemma DivisibleAbs(a: int, b: int)
    requires b != 0 && Abs(a) % Abs(b) == 0
    ensures a % b == 0
  {
    if b < 0 { DivisibleByMinus(Abs(a), -b); }
    if a < 0 { MinusDivisible(-a, b); }
  }

  lemma MinusDivisible(a: int, b: int)
    requires b != 0 && a % b == 0
    ensures (-a) % b == 0
  {
    MinusProduct(a / b, b);
    DivisibleBy(-a, b, -(a / b));
  }

  lemma DivisibleByMinus(a: int, b: int)
    requires b != 0 && a % b == 0
    ensures a % (-b) == 0
  {
    MinusProduct(a / b, b);
    DivisibleBy(a, -b, -(a / b));
  }

  lemma MinusProduct(q: int, b: int)
    ensures (-q) * b == -(q * b) && (-q) * (-b) == q * b
  {
  }

  lemma DivisibleBy(a: int, b: int, q: int)
    requires b != 0 && a == q * b
    ensures a % b == 0
  {
    var d := a / b - q;
    assert d * b == -(a % b);
    assert d > 0 && b > 0 ==> d * b >= b;
    assert d < 0 && b > 0 ==> d * b <= -b;
    assert d > 0 && b < 0 ==> d * b <= b;
    assert d < 0 && b < 0 ==> d * b >= -b;
  }

  // ---------------------------------------------------------------- shifts

  lemma LshiftExact(src1: int, src2: int)
    requires IsWord(src1) && IsWord(src2)
    ensures var e := LshiftFast(src1, src2);
      && Exact(e, IsInteger(src1) && IsInteger(src2), ShiftedLeft(Untag(src1), Untag(src2)))
      && (e.Slow? ==> LshiftSlowArgs(e, src1, src2) == (src1, src2))
  {
    hide Pow2;
  }

  lemma OrOne(x: int)
    requires IsWord(x)
    ensures OrWords(x, 1) == 2 * (x / 2) + 1
  {
    hide Bitwise;
    BitwiseStep(Or, x, 1, 30);
    Pow2At31();
    OrZero(x / 2, 30);
  }

  /** Shifting the tagged word and tagging again shifts the integer: nothing overflows. */
  lemma RshiftExact(src1: int, src2: int)
    requires IsWord(src1) && IsWord(src2)
    ensures var e := RshiftFast(src1, src2);
      && Exact(e, IsInteger(src1) && IsInteger(src2), ShiftedRight(Untag(src1), Untag(src2)))
      && (e.Slow? ==> e.regs.eax == src1 && e.regs.ecx == src2)
  {
    hide OrWords, Pow2;
    if IsInteger(src1) && IsInteger(src2) {
      var k := Untag(src2) % 32;
      ShiftedTag(Untag(src1), k);
      OrOne(src1 / Pow2(k));
    }
  }

  lemma ShiftedTag(a: int, k: nat)
    requires IsImmediateInt(a)
    ensures IsWord(Tag(a) / Pow2(k)) && IsImmediateInt(a / Pow2(k))
    ensures (Tag(a) / Pow2(k)) / 2 == a / Pow2(k)
  {
    hide Pow2;
    ShiftRightOdd(a, k);
    DivWithin(Tag(a), Pow2(k), -TWO31, TWO31);
    DivWithin(a, Pow2(k), -0x4000_0000, 0x4000_0000);
    if k > 0 {
      DivHalves(a, k);
    } else {
      PowZero();
    }
  }

  lemma PowZero()
    ensures Pow2(0) == 1
  {
  }

  lemma DivHalves(a: int, k: nat)
    requires k > 0
    ensures (a / Pow2(k - 1)) / 2 == a / Pow2(k)
  {
    var p := Pow2(k - 1);
    var q, r := a / p, a % p;
    assert a == q * p + r;
    assert a == (q / 2) * (2 * p) + ((q % 2) * p + r);
    ModUnique(a, 2 * p, q / 2, (q % 2) * p + r);
  }

  // --------------------------------------------------------------- bitwise

  /** On tagged words, the operation on the integers; the tags are combined beside them. */
  lemma TaggedBitwise(op: BitOp, src1: int, src2: int)
    requires IsWord(src1) && IsWord(src2) && IsInteger(src1) && IsInteger(src2)
    ensures Bitwise(op, src1, src2, 31) == 2 * Bitwise(op, Untag(src1), Untag(src2), 31) + BitOf(op, 1, 1)
    ensures IsImmediateInt(Bitwise(op, Untag(src1), Untag(src2), 31))
  {
    hide Bitwise;
    Pow2At31();
    BitwiseStep(op, src1, src2, 30);
    BitwiseWiden(op, Untag(src1), Untag(src2), 30);
    BitwiseFits(op, Untag(src1), Untag(src2), 30);
  }

  lemma BitAndExact(src1: int, src2: int)
    requires IsWord(src1) && IsWord(src2)
    ensures var e := BitAndFast(src1, src2);
      && Exact(e, IsInteger(src1) && IsInteger(src2), Integer(AndWords(Untag(src1), Untag(src2))))
      && (e.Slow? ==> BitAndSlowArgs(e, src1) == (src1, src2))
  {
    hide Bitwise;
    BothTagged(src1, src2);
    if IsInteger(src1) && IsInteger(src2) { TaggedBitwise(And, src1, src2); }
  }

  lemma BitAndConstExact(src: int, constant: int)
    requires IsWord(src) && IsWord(constant) && IsInteger(constant)
    ensures var e := BitAndConstFast(src, constant);
      && Exact(e, IsInteger(src), Integer(AndWords(Untag(src), Untag(constant))))
      && (e.Slow? ==> BitAndConstSlowArg(e) == src)
  {
    hide Bitwise;
    if IsInteger(src) { TaggedBitwise(And, src, constant); }
  }

  lemma BitOrExact(src1: int, src2: int)
    requires IsWord(src1) && IsWord(src2)
    ensures Exact(BitOrFast(src1, src2), IsInteger(src1) && IsInteger(src2), Integer(OrWords(Untag(src1), Untag(src2))))
    ensures BitOrFast(src1, src2).Slow? ==> BitOrFast(src1, src2).regs.eax == src1 && BitOrFast(src1, src2).regs.edx == src2
  {
    hide Bitwise;
    BothTagged(src1, src2);
    if IsInteger(src1) && IsInteger(src2) { TaggedBitwise(Or, src1, src2); }
  }

  lemma BitXorExact(src1: int, src2: int)
    requires IsWord(src1) && IsWord(src2)
    ensures Exact(BitXorFast(src1, src2), IsInteger(src1) && IsInteger(src2), Integer(XorWords(Untag(src1), Untag(src2))))
    ensures BitXorFast(src1, src2).Slow? ==> BitXorFast(src1, src2).regs.eax == src1 && BitXorFast(src1, src2).regs.edx == src2
  {
    hide Bitwise;
    BothTagged(src1, src2);
    if IsInteger(src1) && IsInteger(src2) { TaggedBitwise(Xor, src1, src2); }
  }

  /** Flipping all bits but the tag complements the integer: -1 - n. */
  lemma BitNotExact(src: int)
    requires IsWord(src)
    ensures Exact(BitNotFast(src), IsInteger(src), Integer(-1 - Untag(src)))
    ensures BitNotFast(src).Slow? ==> BitNotFast(src).regs.eax == src
  {
    hide Bitwise;
    Pow2At31();
    if IsInteger(src) {
      BitwiseStep(Xor, src, -2, 30);
      XorOnes(Untag(src), 30);
    }
  }

  // ---------------------------------------------------- booleans and tests

  lemma Halves(w: int)
    ensures (w / 2) / 2 == w / 4 && (w / 4) / 2 == w / 8 && (w / 8) / 2 == w / 16
    ensures w % 2 == w % 8 % 2 && w / 2 % 2 == (w % 8) / 2 % 2 && w / 4 % 2 == (w % 8) / 4
    ensures w / 8 % 2 == (w % 16) / 8 && w % 8 == w % 16 % 8
  {
  }

  /** What flipping bits 1 and 2 makes of the last three bits. */
  function FlipSix(r: int): int {
    if r == 0 then 6 else if r == 1 then 7 else if r == 2 then 4 else if r == 3 then 5
    else if r == 4 then 2 else if r == 5 then 3 else if r == 6 then 0 else 1
  }

  lemma XorSix(w: int)
    requires IsWord(w)
    ensures XorWords(w, 6) == 8 * (w / 8) + FlipSix(w % 8)
  {
    hide Bitwise, Pow2;
    Halves(w);
    Pow2At31();
    BitwiseStep(Xor, w, 6, 30);
    BitwiseStep(Xor, w / 2, 3, 29);
    BitwiseStep(Xor, w / 4, 1, 28);
    XorZero(w / 8, 28);
  }

  /** Negates a boolean; anything else reaches the helper as it was. */
  lemma NotExact(src: int)
    requires IsValue(src)
    ensures var e := NotFast(src);
      && (src == TRUE_WORD ==> e == Done(FALSE_WORD))
      && (src == FALSE_WORD ==> e == Done(TRUE_WORD))
      && (src !in {TRUE_WORD, FALSE_WORD} ==> e.Slow? && NotSlowArg(e) == src)
  {
    hide AndWords, XorWords, FlipSix;
    XorSix(src);
    XorSix(XorWords(src, 6));
    MaskFifteen(XorWords(src, 6));
    FlipSixTwice(src);
    FlipBool();
  }

  lemma FlipSixTwice(w: int)
    ensures var x := 8 * (w / 8) + FlipSix(w % 8);
      && 8 * (x / 8) + FlipSix(x % 8) == w
      && (x % 16 == 0 <==> w % 16 == 6)
      && (w == FALSE_WORD ==> x == 0) && (w == TRUE_WORD ==> x == 0x10)
  {
    EightTimes(w / 8, w % 8);
    EightTimes(w / 8, FlipSix(w % 8));
  }

  lemma EightTimes(q: int, r: int)
    requires 0 <= r < 8
    ensures (8 * q + r) / 8 == q && (8 * q + r) % 8 == r && (8 * q + r) % 16 == 8 * (q % 2) + r
  {
  }

  lemma MaskFifteen(w: int)
    ensures AndWords(w, 15) == w % 16
  {
    hide Bitwise;
    assert Pow2(4) == 16;
    AndMask(w, 4, 31);
  }

  lemma FlipBool()
    ensures XorWords(0, 0x16) == TRUE_WORD && XorWords(0x10, 0x16) == FALSE_WORD
  {
    hide Bitwise, Pow2;
    BitwiseStep(Xor, 0, 22, 30);
    BitwiseStep(Xor, 16, 22, 30);
    BitwiseStep(Xor, 0, 11, 29);
    BitwiseStep(Xor, 8, 11, 29);
    BitwiseStep(Xor, 0, 5, 28);
    BitwiseStep(Xor, 4, 5, 28);
    BitwiseStep(Xor, 0, 2, 27);
    BitwiseStep(Xor, 2, 2, 27);
    BitwiseStep(Xor, 0, 1, 26);
    BitwiseStep(Xor, 1, 1, 26);
    XorZero(0, 26);
  }

  lemma PowFour()
    ensures Pow2(4) == 16
  {
  }

  lemma TagAsBoolIs(bit: int)
    requires bit in {0, 1}
    ensures TagAsBool(bit) == if bit == 1 then TRUE_WORD else FALSE_WORD
  {
    hide Bitwise, Pow2;
    PowFour();
    Pow2At31();
    BitwiseStep(Or, 16 * bit, 6, 30);
    BitwiseStep(Or, 8 * bit, 3, 29);
    BitwiseStep(Or, 4 * bit, 1, 28);
    OrZero(2 * bit, 28);
  }

  lemma EqExact(src1: int, src2: int, negated: bool)
    requires IsWord(src1) && IsWord(src2)
    ensures var e := EqFast(src1, src2, negated);
      if IsInteger(src1) && IsInteger(src2)
      then e == Done(if (Untag(src1) == Untag(src2)) != negated then TRUE_WORD else FALSE_WORD)
      else e.Slow? && e.regs.eax == src1 && e.regs.edx == src2
  {
    hide AndWords, TagAsBool;
    BothTagged(src1, src2);
    TagAsBoolIs(if (src1 == src2) != negated then 1 else 0);
  }

  /** Tagged words compare as the integers do. */
  lemma CompareExact(c: Condition, src1: int, src2: int)
    requires IsWord(src1) && IsWord(src2)
    ensures var e, a, b := CompareFast(c, src1, src2), Untag(src1), Untag(src2);
      if IsInteger(src1) && IsInteger(src2)
      then e == Branch((c.IfLess? && a < b) || (c.IfLessOrEqual? && (a < b || a == b)) || (c.IfNotLess? && !(a < b)))
      else e.Slow? && e.regs.eax == src1 && e.regs.edx == src2
  {
  }

  /** Both conditional jumps decide integers and booleans, in opposite senses, and no
      other value. */
  lemma JumpExact(src: int)
    requires IsWord(src)
    ensures if IsInteger(src) || src in {TRUE_WORD, FALSE_WORD}
      then var truthy := if IsInteger(src) then Untag(src) != 0 else src == TRUE_WORD;
        JTrueFast(src) == Branch(truthy) && JFalseFast(src) == Branch(!truthy)
      else JTrueFast(src) == JFalseFast(src) == Slow(0, Regs(src, 0, 0))
  {
  }

  lemma MaskUndefinedBit(w: int)
    requires IsWord(w)
    ensures AndWords(w, -9) == 16 * (w / 16) + w % 8
  {
    hide Bitwise, Pow2;
    Halves(w);
    Pow2At31();
    BitwiseStep(And, w, -9, 30);
    BitwiseStep(And, w / 2, -5, 29);
    BitwiseStep(And, w / 4, -3, 28);
    BitwiseStep(And, w / 8, -2, 27);
    AndOnes(w / 16, 27);
  }

  /** One mask tells undefined and null from every other word. */
  lemma EqNullExact(src: int)
    requires IsWord(src)
    ensures EqNullImmediate(src) <==> src in {NULL_WORD, UNDEFINED_WORD}
  {
    hide AndWords;
    MaskUndefinedBit(src);
  }

  /** The element is loaded exactly for an index below the cutoff; on every other path
      the helper is handed the index as it was. */
  lemma IndexExact(index: int, isArray: bool, cutoff: nat)
    requires IsWord(index) && cutoff <= TWO31
    ensures var e := IndexFast(index, isArray, cutoff);
      && (e.Done? <==> IsInteger(index) && isArray && 0 <= Untag(index) < cutoff)
      && (e.Done? ==> e.result == Untag(index))
      && !e.Branch? && (e.Slow? ==> IndexSlowArg(e) == index)
  {
  }
}
