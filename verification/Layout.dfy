/** The word stream: opcode words followed by operand words, the jump distance last.
    The distance of a jump is measured from the slot that holds it. */
module Layout {
  import opened Bytecode
  import opened Relate

  datatype Op =
    | OpPlain(op: nat, args: nat, imms: nat)
    | OpLess | OpLessEq | OpNot | OpEqNull | OpNeqNull
    | OpJmp | OpLoop | OpJTrue | OpJFalse | OpLoopIfTrue | OpJEqNull | OpJNeqNull
    | OpJNLess | OpLoopIfLess | OpLoopIfLessEq
    | OpNextName | OpJmpScopes | OpJsr | OpSret | OpPushScope | OpPopScope
    | OpEnd

  datatype Word = Opc(op: Op) | Num(n: int)

  function OpOf(i: Ins): Op {
    match i
    case Plain(op, _, args, imms) => OpPlain(op, |args|, |imms|)
    case Less(_, _, _) => OpLess
    case LessEq(_, _, _) => OpLessEq
    case Not(_, _) => OpNot
    case EqNull(_, _) => OpEqNull
    case NeqNull(_, _) => OpNeqNull
    case Jmp(_) => OpJmp
    case Loop(_) => OpLoop
    case JTrue(_, _) => OpJTrue
    case JFalse(_, _) => OpJFalse
    case LoopIfTrue(_, _) => OpLoopIfTrue
    case JEqNull(_, _) => OpJEqNull
    case JNeqNull(_, _) => OpJNeqNull
    case JNLess(_, _, _) => OpJNLess
    case LoopIfLess(_, _, _) => OpLoopIfLess
    case LoopIfLessEq(_, _, _) => OpLoopIfLessEq
    case NextName(_, _, _) => OpNextName
    case JmpScopes(_, _) => OpJmpScopes
    case Jsr(_, _) => OpJsr
    case Sret(_) => OpSret
    case PushScope(_) => OpPushScope
    case PopScope => OpPopScope
  }

  function Operands(i: Ins): seq<int> {
    match i
    case Plain(_, d, args, imms) => [d] + args + imms
    case Less(d, a, b) => [d, a, b]
    case LessEq(d, a, b) => [d, a, b]
    case Not(d, s) => [d, s]
    case EqNull(d, s) => [d, s]
    case NeqNull(d, s) => [d, s]
    case Jmp(t) => [t]
    case Loop(t) => [t]
    case JTrue(c, t) => [c, t]
    case JFalse(c, t) => [c, t]
    case LoopIfTrue(c, t) => [c, t]
    case JEqNull(s, t) => [s, t]
    case JNeqNull(s, t) => [s, t]
    case JNLess(a, b, t) => [a, b, t]
    case LoopIfLess(a, b, t) => [a, b, t]
    case LoopIfLessEq(a, b, t) => [a, b, t]
    case NextName(d, it, t) => [d, it, t]
    case JmpScopes(count, t) => [count, t]
    case Jsr(r, t) => [r, t]
    case Sret(r) => [r]
    case PushScope(s) => [s]
    case PopScope => []
  }

  function Nums(ns: seq<int>): (ws: seq<Word>)
    ensures |ws| == |ns| && forall k :: 0 <= k < |ns| ==> ws[k] == Num(ns[k])
  {
    seq(|ns|, k requires 0 <= k < |ns| => Num(ns[k]))
  }

  function Encode(i: Ins): seq<Word> {
    [Opc(OpOf(i))] + Nums(Operands(i))
  }

  function Width(i: Ins): nat {
    1 + |Operands(i)|
  }

  /** The number of operand words that follow an opcode word. */
  function Arity(op: Op): nat {
    match op
    case OpPlain(_, args, imms) => 1 + args + imms
    case OpLess => 3
    case OpLessEq => 3
    case OpNot => 2
    case OpEqNull => 2
    case OpNeqNull => 2
    case OpJmp => 1
    case OpLoop => 1
    case OpJTrue => 2
    case OpJFalse => 2
    case OpLoopIfTrue => 2
    case OpJEqNull => 2
    case OpJNeqNull => 2
    case OpJNLess => 3
    case OpLoopIfLess => 3
    case OpLoopIfLessEq => 3
    case OpNextName => 3
    case OpJmpScopes => 2
    case OpJsr => 2
    case OpSret => 1
    case OpPushScope => 1
    case OpPopScope => 0
    case OpEnd => 0
  }

  function Build(op: Op, n: seq<int>): Option<Ins>
    requires |n| == Arity(op)
  {
    match op
    case OpPlain(o, args, imms) => Some(Plain(o, n[0], n[1..1 + args], n[1 + args..]))
    case OpLess => Some(Less(n[0], n[1], n[2]))
    case OpLessEq => Some(LessEq(n[0], n[1], n[2]))
    case OpNot => Some(Not(n[0], n[1]))
    case OpEqNull => Some(EqNull(n[0], n[1]))
    case OpNeqNull => Some(NeqNull(n[0], n[1]))
    case OpJmp => Some(Jmp(n[0]))
    case OpLoop => Some(Loop(n[0]))
    case OpJTrue => Some(JTrue(n[0], n[1]))
    case OpJFalse => Some(JFalse(n[0], n[1]))
    case OpLoopIfTrue => Some(LoopIfTrue(n[0], n[1]))
    case OpJEqNull => Some(JEqNull(n[0], n[1]))
    case OpJNeqNull => Some(JNeqNull(n[0], n[1]))
    case OpJNLess => Some(JNLess(n[0], n[1], n[2]))
    case OpLoopIfLess => Some(LoopIfLess(n[0], n[1], n[2]))
    case OpLoopIfLessEq => Some(LoopIfLessEq(n[0], n[1], n[2]))
    case OpNextName => Some(NextName(n[0], n[1], n[2]))
    case OpJmpScopes => if n[0] >= 0 then Some(JmpScopes(n[0], n[1])) else None
    case OpJsr => Some(Jsr(n[0], n[1]))
    case OpSret => Some(Sret(n[0]))
    case OpPushScope => Some(PushScope(n[0]))
    case OpPopScope => Some(PopScope)
    case OpEnd => None
  }

  function Unword(w: Word): int {
    match w
    case Num(n) => n
    case Opc(_) => 0
  }

  function Fetch(words: seq<Word>, from: nat, n: nat): (ns: seq<int>)
    requires from + n <= |words|
    ensures |ns| == n && forall k :: 0 <= k < n ==> ns[k] == Unword(words[from + k])
  {
    seq(n, k requires 0 <= k < n => Unword(words[from + k]))
  }

  function Decode(words: seq<Word>, pc: nat): Option<Ins> {
    if pc < |words| && words[pc].Opc? && pc + 1 + Arity(words[pc].op) <= |words|
    then
      var op := words[pc].op;
      Build(op, Fetch(words, pc + 1, Arity(op)))
    else None
  }

  lemma BuildOperands(i: Ins)
    ensures |Operands(i)| == Arity(OpOf(i)) && Build(OpOf(i), Operands(i)) == Some(i)
  {
    if i.Plain? {
      var n := [i.dst] + i.args + i.imms;
      assert n[1..1 + |i.args|] == i.args && n[1 + |i.args|..] == i.imms;
    }
  }

  /** Decoding inverts encoding, wherever the instruction stands. */
  lemma DecodeEncode(words: seq<Word>, pc: nat, i: Ins)
    requires pc + Width(i) <= |words| && words[pc..pc + Width(i)] == Encode(i)
    ensures Decode(words, pc) == Some(i)
  {
    BuildOperands(i);
    assert words[pc] == Encode(i)[0];
    var op := OpOf(i);
    forall k | 0 <= k < Arity(op) ensures words[pc + 1 + k] == Num(Operands(i)[k]) {
      assert words[pc..pc + Width(i)][1 + k] == Encode(i)[1 + k];
    }
    assert Fetch(words, pc + 1, Arity(op)) == Operands(i);
  }

  // -------------------------------------------------------------- positions

  function Offset(ins: seq<Ins>, k: nat): nat
    requires k <= |ins|
  {
    if k == 0 then 0 else Offset(ins, k - 1) + Width(ins[k - 1])
  }

  lemma {:induction false} OffsetPrefix(a: seq<Ins>, b: seq<Ins>, k: nat)
    requires k <= |a| && k <= |b| && a[..k] == b[..k]
    ensures Offset(a, k) == Offset(b, k)
  {
    if k > 0 {
      assert a[k - 1] == a[..k][k - 1] == b[k - 1];
      assert a[..k - 1] == a[..k][..k - 1] == b[..k - 1];
      OffsetPrefix(a, b, k - 1);
    }
  }

  lemma {:induction false} OffsetMonotone(ins: seq<Ins>, j: nat, k: nat)
    requires j < k <= |ins|
    ensures Offset(ins, j) + Width(ins[j]) <= Offset(ins, k)
  {
    if j + 1 < k {
      OffsetMonotone(ins, j, k - 1);
    }
  }

  /** The operand slot a jump distance is stored in and measured from. */
  function Slot(ins: seq<Ins>, k: nat): nat
    requires k < |ins|
  {
    Offset(ins, k) + Width(ins[k]) - 1
  }

  /** The stored distance: 0 until the label is placed. */
  function Distance(p: Program, k: nat): int
    requires k < |p.ins|
  {
    var t := p.ins[k];
    if t.Jumps() && t.target >= 0 && t.target in p.loc && p.loc[t.target] <= |p.ins|
    then Offset(p.ins, p.loc[t.target]) - Slot(p.ins, k)
    else 0
  }

  function Stored(p: Program, k: nat): Ins
    requires k < |p.ins|
  {
    Retarget(p.ins[k], Distance(p, k))
  }

  ghost predicate StoredAt(words: seq<Word>, p: Program, k: nat)
    requires k < |p.ins|
  {
    var o := Offset(p.ins, k);
    o + Width(p.ins[k]) <= |words| && words[o..o + Width(p.ins[k])] == Encode(Stored(p, k))
  }

  /** `words` is the program with every jump to a placed label resolved. */
  ghost predicate Encodes(words: seq<Word>, p: Program) {
    && |words| == Offset(p.ins, |p.ins|)
    && (forall k | 0 <= k < |p.ins| :: StoredAt(words, p, k))
  }

  // ---------------------------------------------------------------- machine

  function StepWords(rt: Runtime, engine: Engine, words: seq<Word>, s: State): State {
    var d := Decode(words, s.pc);
    if s.halted || d.None? then s
    else
      var i := d.value;
      var slot := s.pc + Width(i) - 1;
      var target := if i.Jumps() && slot + i.target >= 0 then slot + i.target else 0;
      Exec(rt, engine, i, slot + 1, target, s)
  }

  function RunWords(rt: Runtime, engine: Engine, words: seq<Word>, s: State, n: nat): State {
    if n == 0 then s else StepWords(rt, engine, words, RunWords(rt, engine, words, s, n - 1))
  }

  function Offsets(ins: seq<Ins>): (pos: seq<nat>)
    ensures |pos| == |ins| + 1 && forall k :: 0 <= k <= |ins| ==> pos[k] == Offset(ins, k)
  {
    seq(|ins| + 1, k requires 0 <= k <= |ins| => Offset(ins, k))
  }

  /** The word machine is where the program machine is. */
  ghost predicate AtOffset(p: Program, s: State, s': State) {
    && s.pc <= |p.ins|
    && s'.pc == Offset(p.ins, s.pc)
    && Related(Offsets(p.ins), {}, s, s')
  }

  lemma RetargetedShape(i: Ins, t: int)
    ensures Width(Retarget(i, t)) == Width(i) && Retarget(i, t).Jumps() == i.Jumps()
    ensures i.Jumps() ==> Retarget(i, t).target == t
  {
  }

  lemma StepWordsAgrees(rt: Runtime, engine: Engine, words: seq<Word>, p: Program, s: State, s': State)
    requires Closed(p) && Encodes(words, p) && AtOffset(p, s, s')
    ensures AtOffset(p, Step(rt, engine, p, s), StepWords(rt, engine, words, s'))
  {
    hide CellsRelated, RegsRelated, Exec, Encode, Width;
    if s.pc == |p.ins| {
    } else if !s.halted {
      var k, i := s.pc, p.ins[s.pc];
      assert StoredAt(words, p, k);
      var d := Distance(p, k);
      RetargetedShape(i, d);
      DecodeEncode(words, s'.pc, Retarget(i, d));
      var target := if i.Jumps() then p.loc[i.target] else 0;
      var target' := if i.Jumps() then Offset(p.ins, p.loc[i.target]) else 0;
      ExecRelated(rt, engine, Offsets(p.ins), {}, i, k + 1, target, s'.pc + Width(i), target', s, s');
      ExecIgnoresTargetField(rt, engine, i, d, s'.pc + Width(i), target', s');
      assert {} - Writes(i) == {};
    }
  }

  /** The words of a closed program run in lock step with the program. */
  lemma {:induction false} WordsRunLikeProgram(rt: Runtime, engine: Engine, words: seq<Word>, p: Program, s: State, s': State, n: nat)
    requires Closed(p) && Encodes(words, p) && AtOffset(p, s, s')
    ensures AtOffset(p, Run(rt, engine, p, s, n), RunWords(rt, engine, words, s', n))
    decreases n
  {
    hide Closed, Encodes, AtOffset, Step, StepWords;
    if n > 0 {
      WordsRunLikeProgram(rt, engine, words, p, s, s', n - 1);
      StepWordsAgrees(rt, engine, words, p, Run(rt, engine, p, s, n - 1), RunWords(rt, engine, words, s', n - 1));
    }
  }
}
