/** What each call on the generator means, said of executions and not of instructions: the
    instruction that `Unfused` gives a call is executed in an arbitrary state. */
module CallMeaning {
  import opened Bytecode
  import opened Peephole
  import opened Layout

  /** The instruction of the last call. */
  function LastOf(calls: seq<Call>): Ins
    requires |Unfused(calls).ins| > 0
  {
    Unfused(calls).ins[|Unfused(calls).ins| - 1]
  }

  lemma LastCall(calls: seq<Call>, c: Call)
    requires !c.Place?
    ensures |Unfused(calls + [c]).ins| > 0 && LastOf(calls + [c]) == PlainJump(c, Unfused(calls).loc)
  {
    assert (calls + [c])[..|calls|] == calls;
  }

  // ------------------------------------------------------------- operations

  /** `dst` alone is changed. */
  predicate Assigns(s: State, t: State, events: seq<Event>, dst: Reg, v: Value, next: nat) {
    t == State(next, s.regs[dst := Val(v)], s.scopes, s.log + events, s.halted)
  }

  predicate Stops(s: State, t: State, e: Event) {
    t.halted && t.log == s.log + [e] && t.regs == s.regs && t.scopes == s.scopes
  }

  predicate Compares(rt: Runtime, comparison: Comparison, a: Value, b: Value, s: State, t: State, dst: Reg, next: nat) {
    var e := Compared(comparison, a, b);
    match rt.compare(s.log, comparison, a, b)
    case Answer(holds) => Assigns(s, t, [e], dst, Bool(holds), next)
    case Throws => Stops(s, t, e)
  }

  predicate Performs(rt: Runtime, opcode: nat, args: seq<Value>, imms: seq<int>, s: State, t: State, dst: Reg, next: nat) {
    var e := Performed(opcode, args, imms);
    match rt.perform(s.log, s.scopes, opcode, args, imms)
    case Yields(v) => Assigns(s, t, [e], dst, v, next)
    case _ => Stops(s, t, e)
  }

  predicate UnaryStep(rt: Runtime, op: Op, src: Reg, types: seq<int>, s: State, t: State, dst: Reg, next: nat) {
    var a := Read(s.regs, src);
    match op
    case OpNot => Assigns(s, t, [], dst, Bool(!ToBoolean(rt, a)), next)
    case OpEqNull => Assigns(s, t, [], dst, Bool(a.Undefined? || a.Null? || (a.Object? && a.masquerades)), next)
    case OpNeqNull => Assigns(s, t, [], dst, Bool(a.Bool? || a.Primitive? || (a.Object? && !a.masquerades)), next)
    case OpPlain(opcode, _, _) => Performs(rt, opcode, [a], types, s, t, dst, next)
    case _ => false
  }

  predicate BinaryStep(rt: Runtime, op: Op, src1: Reg, src2: Reg, types: seq<int>, s: State, t: State, dst: Reg, next: nat) {
    var a, b := Read(s.regs, src1), Read(s.regs, src2);
    match op
    case OpLess => Compares(rt, LessThan, a, b, s, t, dst, next)
    case OpLessEq => Compares(rt, LessOrEqual, a, b, s, t, dst, next)
    case OpPlain(opcode, _, _) => Performs(rt, opcode, [a, b], types, s, t, dst, next)
    case _ => false
  }

  ghost predicate ComputesUnary(i: Ins, op: Op, dst: Reg, src: Reg, types: seq<int>) {
    forall rt, engine, next, target, s: State | !s.halted :: UnaryStep(rt, op, src, types, s, Exec(rt, engine, i, next, target, s), dst, next)
  }

  ghost predicate ComputesBinary(i: Ins, op: Op, dst: Reg, src1: Reg, src2: Reg, types: seq<int>) {
    forall rt, engine, next, target, s: State | !s.halted :: BinaryStep(rt, op, src1, src2, types, s, Exec(rt, engine, i, next, target, s), dst, next)
  }

  lemma UnaryComputes(i: Ins, op: Op, dst: Reg, src: Reg, types: seq<int>)
    requires match op
      case OpNot => i == Not(dst, src)
      case OpEqNull => i == EqNull(dst, src)
      case OpNeqNull => i == NeqNull(dst, src)
      case OpPlain(opcode, _, _) => i == Plain(opcode, dst, [src], types)
      case _ => false
    ensures ComputesUnary(i, op, dst, src, types)
  {
    forall rt, engine, next, target, s: State | !s.halted ensures UnaryStep(rt, op, src, types, s, Exec(rt, engine, i, next, target, s), dst, next) {
      assert ReadAll(s.regs, [src]) == [Read(s.regs, src)];
    }
  }

  lemma BinaryComputes(i: Ins, op: Op, dst: Reg, src1: Reg, src2: Reg, types: seq<int>)
    requires match op
      case OpLess => i == Less(dst, src1, src2)
      case OpLessEq => i == LessEq(dst, src1, src2)
      case OpPlain(opcode, _, _) => i == Plain(opcode, dst, [src1, src2], types)
      case _ => false
    ensures ComputesBinary(i, op, dst, src1, src2, types)
  {
    forall rt, engine, next, target, s: State | !s.halted ensures BinaryStep(rt, op, src1, src2, types, s, Exec(rt, engine, i, next, target, s), dst, next) {
      assert ReadAll(s.regs, [src1, src2]) == [Read(s.regs, src1), Read(s.regs, src2)];
    }
  }

  // ------------------------------------------------------------------ jumps

  /** Goes to `target` or to `next`; a jump back looks for a timeout when it is taken. */
  predicate Goes(s: State, t: State, taken: bool, back: bool, next: nat, target: nat) {
    t == State(if taken then target else next, s.regs, s.scopes, s.log + if taken && back then [TimeoutCheck] else [], s.halted)
  }

  /** `i` jumps to `l` when the condition, if there is one, has the value `sense`. */
  ghost predicate JumpsOn(i: Ins, cond: Option<Reg>, sense: bool, l: Label, back: bool) {
    && i.Jumps() && i.target == l
    && forall rt, engine, next, target, s ::
         Goes(s, Exec(rt, engine, i, next, target, s), cond.None? || ToBoolean(rt, Read(s.regs, cond.value)) == sense, back, next, target)
  }

  lemma PlainJumpsOn(c: Call, loc: map<Label, nat>)
    requires c.Jump? || c.JumpIfTrue? || c.JumpIfFalse?
    requires Allowed(loc, c)
    ensures JumpsOn(PlainJump(c, loc), if c.Jump? then None else Some(c.cond), !c.JumpIfFalse?, c.l, c.l in loc)
  {
    var i, cond := PlainJump(c, loc), if c.Jump? then None else Some(c.cond);
    forall rt, engine, next, target, s
      ensures Goes(s, Exec(rt, engine, i, next, target, s), cond.None? || ToBoolean(rt, Read(s.regs, cond.value)) == !c.JumpIfFalse?,
                   c.l in loc, next, target)
    {
      assert s.log + [] == s.log;
    }
  }

  /** `i` takes the next name of the enumeration in `iter` and goes on at `l`, until there
      are none. */
  ghost predicate Enumerates(i: Ins, dst: Reg, iter: Reg, l: Label) {
    && i.Jumps() && i.target == l
    && forall rt, engine, next, target, s :: NameStep(rt, iter, s, Exec(rt, engine, i, next, target, s), dst, next, target)
  }

  predicate NameStep(rt: Runtime, iter: Reg, s: State, t: State, dst: Reg, next: nat, target: nat) {
    var names := Read(s.regs, iter);
    match rt.nextName(s.log, names)
    case Some(name) => Assigns(s, t, [Iterated(names), TimeoutCheck], dst, name, target)
    case None => t == State(next, s.regs, s.scopes, s.log + [Iterated(names)], s.halted)
  }

  lemma NameMeans(calls: seq<Call>, dst: Reg, iter: Reg, l: Label)
    ensures var after := calls + [Emit(NextName(dst, iter, l))];
      |Unfused(after).ins| > 0 && Enumerates(LastOf(after), dst, iter, l)
  {
    LastCall(calls, Emit(NextName(dst, iter, l)));
  }

  // ------------------------------------------------- scopes and subroutines

  /** `i` pushes the value of `src` as the innermost scope. */
  ghost predicate Pushes(i: Ins, src: Reg) {
    forall rt, engine, next, target, s ::
      Exec(rt, engine, i, next, target, s) == State(next, s.regs, s.scopes + [Read(s.regs, src)], s.log, s.halted)
  }

  /** `i` drops the innermost scope and keeps the others. */
  ghost predicate Pops(i: Ins) {
    forall rt, engine, next, target, s: State, v | s.scopes != [] && s.scopes[|s.scopes| - 1] == v ::
      PopStep(s, Exec(rt, engine, i, next, target, s), v, next)
  }

  predicate PopStep(s: State, t: State, v: Value, next: nat) {
    t.scopes + [v] == s.scopes && t == State(next, s.regs, t.scopes, s.log, s.halted)
  }

  /** `i` goes to `l` and remembers in `ret` where to come back to. */
  ghost predicate CallsAt(i: Ins, ret: Reg, l: Label) {
    && i.Jumps() && i.target == l
    && forall rt, engine, next, target, s ::
         Exec(rt, engine, i, next, target, s) ==
           State(target, s.regs[ret := RetAddr(next)], s.scopes, s.log + [Subroutine(ret, |s.scopes|)], s.halted)
  }

  /** `i` comes back to where `ret` says. */
  ghost predicate ReturnsBy(i: Ins, ret: Reg) {
    forall rt, engine, next, target, s: State, pc | ret in s.regs && s.regs[ret] == RetAddr(pc) ::
      Exec(rt, engine, i, next, target, s) == State(pc, s.regs, s.scopes, s.log, s.halted)
  }

  lemma EmitMeans(calls: seq<Call>, i: Ins)
    ensures |Unfused(calls + [Emit(i)]).ins| > 0 && LastOf(calls + [Emit(i)]) == i
    ensures i.PushScope? ==> Pushes(i, i.src)
    ensures i.PopScope? ==> Pops(i)
    ensures i.Jsr? && i.target >= 0 ==> CallsAt(i, i.ret, i.target)
    ensures i.Sret? ==> ReturnsBy(i, i.ret)
  {
    hide Unfused;
    LastCall(calls, Emit(i));
  }

  // ------------------------------------------------------------------ loops

  /** Jumps whose direction the generator does not choose. */
  predicate Undirected(i: Ins) { i.JmpScopes? || i.Jsr? || i.Sret? }

  predicate LooksForTimeout(i: Ins) { i.Loop? || i.LoopIfTrue? || i.LoopIfLess? || i.LoopIfLessEq? || i.NextName? }

  /** Jumps that do not look for a timeout go forward. */
  ghost predicate OnlyForward(p: Program) {
    forall k | 0 <= k < |p.ins| && p.ins[k].Jumps() && !Undirected(p.ins[k]) && !LooksForTimeout(p.ins[k]) ::
      p.ins[k].target in p.loc ==> p.loc[p.ins[k].target] > k
  }

  /** A step back, unless it leaves scopes or a finally block, looks for a timeout. */
  ghost predicate PollsGoingBack(p: Program) {
    forall rt, engine, s: State | s.pc < |p.ins| && !s.halted && !Undirected(p.ins[s.pc]) :: PollsIfBack(s, Step(rt, engine, p, s))
  }

  predicate PollsIfBack(s: State, t: State) {
    !t.halted && t.pc <= s.pc ==> |t.log| > |s.log| && t.log[..|s.log|] == s.log && t.log[|t.log| - 1] == TimeoutCheck
  }

  lemma ForwardPolls(p: Program)
    requires Closed(p) && OnlyForward(p)
    ensures PollsGoingBack(p)
  {
  }

  lemma AppendForward(p: Program, i: Ins)
    requires OnlyForward(p) && (i.Jumps() && !Undirected(i) && !LooksForTimeout(i) ==> i.target !in p.loc)
    ensures OnlyForward(p.(ins := p.ins + [i]))
  {
  }

  lemma {:induction false} UnfusedForward(calls: seq<Call>)
    requires Legal(calls)
    ensures OnlyForward(Unfused(calls))
  {
    if calls != [] {
      var prefix, c := calls[..|calls| - 1], calls[|calls| - 1];
      UnfusedForward(prefix);
      if !c.Place? { AppendForward(Unfused(prefix), PlainJump(c, Unfused(prefix).loc)); }
    }
  }

  /** So do all jumps that the generator keeps, fused or not. */
  lemma {:induction false} FusedForward(calls: seq<Call>)
    requires Legal(calls)
    ensures OnlyForward(Fused(calls).program)
  {
    if calls != [] {
      var prefix, c := calls[..|calls| - 1], calls[|calls| - 1];
      FusedForward(prefix);
      FusedCorresponds(prefix);
      SameLabels(Unfused(prefix), Fused(prefix).program, Matching(prefix));
      ExtendForward(Fused(prefix), c);
    }
  }

  lemma ExtendForward(o: Output, c: Call)
    requires OnlyForward(o.program) && Allowed(o.program.loc, c)
    ensures OnlyForward(Extend(o, c).program)
  {
    var p := o.program;
    if !c.Place? {
      var fused := if o.tight && |p.ins| > 0 then TryFuse(p.ins[|p.ins| - 1], c, p.loc) else None;
      if fused.Some? {
        AppendForward(p.(ins := p.ins[..|p.ins| - 1]), fused.value);
      } else {
        AppendForward(p, PlainJump(c, p.loc));
      }
    }
  }

  /** No loop runs without looking for a timeout: neither one instruction per call, nor what
      the generator keeps. */
  lemma LoopsPoll(calls: seq<Call>)
    requires Legal(calls)
    ensures Closed(Unfused(calls)) ==> PollsGoingBack(Unfused(calls))
    ensures Closed(Fused(calls).program) ==> PollsGoingBack(Fused(calls).program)
  {
    UnfusedForward(calls);
    FusedForward(calls);
    if Closed(Unfused(calls)) { ForwardPolls(Unfused(calls)); }
    if Closed(Fused(calls).program) { ForwardPolls(Fused(calls).program); }
  }
}
