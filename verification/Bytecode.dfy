/** The bytecode of the generator at two levels.

    A `Program` is the symbolic form: instructions whose jump targets are label
    names, and a map from placed labels to instruction indices.  A word stream is
    what the generator really stores: opcode words followed by operand words, a
    jump operand holding the distance from its own slot to its target.

    Both levels share one machine, `Exec`, which executes a decoded instruction
    given the program counters of its fall-through and of its target.
 */
module Bytecode {

  datatype Option<+T> = None | Some(value: T)

  type Reg = int
  type Label = nat

  // ---------------------------------------------------------------- values

  datatype Value =
    | Undefined
    | Null
    | Bool(b: bool)
    | Primitive(id: nat)                      // numbers and strings
    | Object(id: nat, masquerades: bool)      // masquerades: typeInfo().masqueradesAsUndefined()

  /** What a register holds: a script value, or the address a `jsr` stored. */
  datatype Cell = Val(v: Value) | RetAddr(pc: nat)

  datatype Comparison = LessThan | LessOrEqual

  /** What can be observed of a run, in order. */
  datatype Event =
    | Compared(comparison: Comparison, left: Value, right: Value)
    | Performed(op: nat, args: seq<Value>, imms: seq<int>)
    | Iterated(names: Value)
    | TimeoutCheck
    | Subroutine(ret: Reg, depth: nat)        // a jsr executed with `depth` scopes pushed

  datatype Answer = Answer(holds: bool) | Throws

  /** What an ordinary instruction comes to: a value for its destination, an exception, or
      the end of the run. */
  datatype Outcome = Yields(v: Value) | Raises | Finishes

  /** The parts of the runtime the generated code calls into.  A comparison may run
      user code, so its answer may depend on everything observed before.  An ordinary
      instruction may look names up in the scopes as well. */
  datatype Runtime = Runtime(
    compare: (seq<Event>, Comparison, Value, Value) -> Answer,
    perform: (seq<Event>, seq<Value>, nat, seq<Value>, seq<int>) -> Outcome,
    nextName: (seq<Event>, Value) -> Option<Value>,
    truthy: nat -> bool)

  /** The interpreter and the JIT disagree on `jneq_null` of an object that
      masquerades as undefined. */
  datatype Engine = Interpreter | Jit

  function ToBoolean(rt: Runtime, v: Value): bool {
    match v
    case Undefined => false
    case Null => false
    case Bool(b) => b
    case Primitive(id) => rt.truthy(id)
    case Object(id, _) => rt.truthy(id)
  }

  predicate IsUndefinedOrNull(v: Value) {
    v.Undefined? || v.Null?
  }

  /** The test of `eq_null`; `neq_null` is its negation. */
  predicate EqualsNull(v: Value) {
    IsUndefinedOrNull(v) || (v.Object? && v.masquerades)
  }

  /** The test of `jneq_null` in each engine. */
  predicate JumpsIfNotNull(engine: Engine, v: Value) {
    match engine
    case Interpreter => !IsUndefinedOrNull(v) || (v.Object? && !v.masquerades)
    case Jit => !EqualsNull(v)
  }

  // ---------------------------------------------------------- instructions

  /** `target` is a label name in a program and a distance in decoded words.
      `Plain` stands for every instruction without control flow of its own. */
  datatype Ins =
    | Plain(op: nat, dst: Reg, args: seq<Reg>, imms: seq<int>)
    | Less(dst: Reg, src1: Reg, src2: Reg)
    | LessEq(dst: Reg, src1: Reg, src2: Reg)
    | Not(dst: Reg, src: Reg)
    | EqNull(dst: Reg, src: Reg)
    | NeqNull(dst: Reg, src: Reg)
    | Jmp(target: int)
    | Loop(target: int)
    | JTrue(cond: Reg, target: int)
    | JFalse(cond: Reg, target: int)
    | LoopIfTrue(cond: Reg, target: int)
    | JEqNull(src: Reg, target: int)
    | JNeqNull(src: Reg, target: int)
    | JNLess(src1: Reg, src2: Reg, target: int)
    | LoopIfLess(src1: Reg, src2: Reg, target: int)
    | LoopIfLessEq(src1: Reg, src2: Reg, target: int)
    | NextName(dst: Reg, iter: Reg, target: int)
    | JmpScopes(count: nat, target: int)
    | Jsr(ret: Reg, target: int)
    | Sret(ret: Reg)
    | PushScope(src: Reg)
    | PopScope
  {
    predicate Jumps() {
      Jmp? || Loop? || JTrue? || JFalse? || LoopIfTrue? || JEqNull? || JNeqNull?
      || JNLess? || LoopIfLess? || LoopIfLessEq? || NextName? || JmpScopes? || Jsr?
    }

    /** The instructions a following conditional jump can absorb. */
    predicate Absorbable() {
      Less? || LessEq? || Not? || EqNull? || NeqNull?
    }
  }

  datatype Program = Program(ins: seq<Ins>, loc: map<Label, nat>)

  /** Every label is placed, and at an instruction boundary. */
  ghost predicate Closed(p: Program) {
    && (forall l :: l in p.loc ==> p.loc[l] <= |p.ins|)
    && (forall k :: 0 <= k < |p.ins| && p.ins[k].Jumps() ==> p.ins[k].target >= 0 && p.ins[k].target in p.loc)
  }

  // --------------------------------------------------------------- machine

  datatype State = State(pc: nat, regs: map<Reg, Cell>, scopes: seq<Value>, log: seq<Event>, halted: bool)

  function ReadCell(regs: map<Reg, Cell>, r: Reg): Cell {
    if r in regs then regs[r] else Val(Undefined)
  }

  /** Reading a return address as a value yields no address. */
  function Read(regs: map<Reg, Cell>, r: Reg): Value {
    match ReadCell(regs, r)
    case Val(v) => v
    case RetAddr(_) => Undefined
  }

  function ReadAll(regs: map<Reg, Cell>, rs: seq<Reg>): (vs: seq<Value>)
    ensures |vs| == |rs|
    ensures forall i :: 0 <= i < |rs| ==> vs[i] == Read(regs, rs[i])
  {
    seq(|rs|, i requires 0 <= i < |rs| => Read(regs, rs[i]))
  }

  function DropScopes(scopes: seq<Value>, count: nat): seq<Value> {
    if count <= |scopes| then scopes[..|scopes| - count] else []
  }

  function Write(st: State, dst: Reg, v: Value, next: nat): State {
    st.(regs := st.regs[dst := Val(v)], pc := next)
  }

  function Branch(st: State, taken: bool, next: nat, target: nat): State {
    st.(pc := if taken then target else next)
  }

  /** A taken backward jump also checks for a script timeout. */
  function LoopBranch(st: State, taken: bool, next: nat, target: nat): State {
    if taken then st.(pc := target, log := st.log + [TimeoutCheck]) else st.(pc := next)
  }

  function Compare(rt: Runtime, st: State, op: Comparison, a: Reg, b: Reg): (State, bool) {
    var left, right := Read(st.regs, a), Read(st.regs, b);
    var st' := st.(log := st.log + [Compared(op, left, right)]);
    match rt.compare(st.log, op, left, right)
    case Answer(holds) => (st', holds)
    case Throws => (st'.(halted := true), false)
  }

  function Perform(st: State, outcome: Outcome, e: Event, dst: Reg, next: nat): State {
    var st' := st.(log := st.log + [e]);
    match outcome
    case Yields(v) => Write(st', dst, v, next)
    case Raises => st'.(halted := true)
    case Finishes => st'.(halted := true)
  }

  /** Executes `i`, whose successors are `next` and, for a jump, `target`. */
  function Exec(rt: Runtime, engine: Engine, i: Ins, next: nat, target: nat, st: State): State {
    match i
    case Plain(op, dst, args, imms) =>
      var vs := ReadAll(st.regs, args);
      Perform(st, rt.perform(st.log, st.scopes, op, vs, imms), Performed(op, vs, imms), dst, next)
    case Less(dst, a, b) =>
      var (st', holds) := Compare(rt, st, LessThan, a, b);
      if st'.halted then st' else Write(st', dst, Bool(holds), next)
    case LessEq(dst, a, b) =>
      var (st', holds) := Compare(rt, st, LessOrEqual, a, b);
      if st'.halted then st' else Write(st', dst, Bool(holds), next)
    case Not(dst, src) => Write(st, dst, Bool(!ToBoolean(rt, Read(st.regs, src))), next)
    case EqNull(dst, src) => Write(st, dst, Bool(EqualsNull(Read(st.regs, src))), next)
    case NeqNull(dst, src) => Write(st, dst, Bool(!EqualsNull(Read(st.regs, src))), next)
    case Jmp(_) => st.(pc := target)
    case Loop(_) => LoopBranch(st, true, next, target)
    case JTrue(c, _) => Branch(st, ToBoolean(rt, Read(st.regs, c)), next, target)
    case JFalse(c, _) => Branch(st, !ToBoolean(rt, Read(st.regs, c)), next, target)
    case LoopIfTrue(c, _) => LoopBranch(st, ToBoolean(rt, Read(st.regs, c)), next, target)
    case JEqNull(s, _) => Branch(st, EqualsNull(Read(st.regs, s)), next, target)
    case JNeqNull(s, _) => Branch(st, JumpsIfNotNull(engine, Read(st.regs, s)), next, target)
    case JNLess(a, b, _) =>
      var (st', holds) := Compare(rt, st, LessThan, a, b);
      if st'.halted then st' else Branch(st', !holds, next, target)
    case LoopIfLess(a, b, _) =>
      var (st', holds) := Compare(rt, st, LessThan, a, b);
      if st'.halted then st' else LoopBranch(st', holds, next, target)
    case LoopIfLessEq(a, b, _) =>
      var (st', holds) := Compare(rt, st, LessOrEqual, a, b);
      if st'.halted then st' else LoopBranch(st', holds, next, target)
    case NextName(dst, iter, _) =>
      var it := Read(st.regs, iter);
      (match rt.nextName(st.log, it)
       case Some(name) =>
         st.(regs := st.regs[dst := Val(name)], log := st.log + [Iterated(it), TimeoutCheck], pc := target)
       case None => st.(log := st.log + [Iterated(it)], pc := next))
    case JmpScopes(count, _) => st.(scopes := DropScopes(st.scopes, count), pc := target)
    case Jsr(ret, _) =>
      st.(regs := st.regs[ret := RetAddr(next)], log := st.log + [Subroutine(ret, |st.scopes|)], pc := target)
    case Sret(ret) =>
      (match ReadCell(st.regs, ret)
       case RetAddr(pc) => st.(pc := pc)
       case Val(_) => st.(halted := true))
    case PushScope(src) => st.(scopes := st.scopes + [Read(st.regs, src)], pc := next)
    case PopScope => st.(scopes := DropScopes(st.scopes, 1), pc := next)
  }

  /** One step of the machine over a program; a finished or halted run stays put. */
  function Step(rt: Runtime, engine: Engine, p: Program, st: State): State {
    if st.halted || st.pc >= |p.ins| then st
    else
      var i := p.ins[st.pc];
      var target := if i.Jumps() && i.target >= 0 && i.target in p.loc then p.loc[i.target] else 0;
      Exec(rt, engine, i, st.pc + 1, target, st)
  }

  function Run(rt: Runtime, engine: Engine, p: Program, st: State, n: nat): State
    decreases n
  {
    if n == 0 then st else Step(rt, engine, p, Run(rt, engine, p, st, n - 1))
  }

  lemma {:induction false} RunAdd(rt: Runtime, engine: Engine, p: Program, st: State, m: nat, n: nat)
    ensures Run(rt, engine, p, st, m + n) == Run(rt, engine, p, Run(rt, engine, p, st, m), n)
    decreases n
  {
    hide Step;
    if n == 0 {
    } else {
      RunAdd(rt, engine, p, st, m, n - 1);
    }
  }
}
