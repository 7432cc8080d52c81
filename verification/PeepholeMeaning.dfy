/** The fused program means the same as the unfused one.

    Runs are compared step by step: the fused program takes one step where the unfused
    one compares and then branches.  Registers are compared outside `dead[k]`, the
    registers whose value at instruction k is never read again. */
module PeepholeMeaning {
  import opened Bytecode
  import opened Relate
  import opened Peephole

  predicate Masquerades(v: Value) {
    v.Object? && v.masquerades
  }

  /** The interpreter's `jneq_null` is not the negation of `eq_null` on an object that
      masquerades as undefined; the JIT's is. */
  predicate NullTestAgrees(engine: Engine, i: Ins, s: State) {
    engine.Interpreter? && i.JNeqNull? ==> !Masquerades(Read(s.regs, i.src))
  }

  // ------------------------------------------------------- one fused pair

  /** The jump leaves `c` where the pair leaves `b`, by way of `a`: it observes and does
      exactly what the pair did, but for writing the condition; it takes the same way
      exactly when the null tests agree. */
  ghost predicate PairMeaning(engine: Engine, first: Ins, jump: Ins, mid: nat, next: nat, target: nat, s: State, a: State, b: State, c: State) {
    && c.log == b.log && c.scopes == b.scopes && c.halted == b.halted == a.halted
    && c.regs == s.regs
    && (if b.halted then b.regs == s.regs && b.pc == c.pc == s.pc
        else first.Absorbable() && exists holds :: b.regs == SetValue(s.regs, first.dst, Bool(holds)))
    && (!b.halted ==> a.pc == mid && b.pc in {next, target})
    && (NullTestAgrees(engine, jump, s) ==> c.pc == b.pc)
    && (next != target && !NullTestAgrees(engine, jump, s) ==> c.pc != b.pc)
  }

  lemma FusedPairMeaning(rt: Runtime, engine: Engine, first: Ins, second: Ins, jump: Ins,
                         mid: nat, next: nat, target: nat, s: State)
    requires Fusion(first, second, jump) && !s.halted
    ensures var a := Exec(rt, engine, first, mid, 0, s);
            var b := if a.halted then a else Exec(rt, engine, second, next, target, a);
            var c := Exec(rt, engine, jump, next, target, s);
      PairMeaning(engine, first, jump, mid, next, target, s, a, b, c)
  {
    hide PairMeaning;
    if first.Less? || first.LessEq? {
      FusedComparisonMeaning(rt, engine, first, second, jump, mid, next, target, s);
    } else {
      FusedTestMeaning(rt, engine, first, second, jump, mid, next, target, s);
    }
  }

  lemma FusedComparisonMeaning(rt: Runtime, engine: Engine, first: Ins, second: Ins, jump: Ins,
                               mid: nat, next: nat, target: nat, s: State)
    requires Fusion(first, second, jump) && !s.halted && (first.Less? || first.LessEq?)
    ensures var a := Exec(rt, engine, first, mid, 0, s);
            var b := if a.halted then a else Exec(rt, engine, second, next, target, a);
            var c := Exec(rt, engine, jump, next, target, s);
      PairMeaning(engine, first, jump, mid, next, target, s, a, b, c)
  {
    hide ReadAll, DropScopes, EqualsNull, JumpsIfNotNull;
    var a := Exec(rt, engine, first, mid, 0, s);
    if !a.halted {
      assert Read(a.regs, first.dst).Bool?;
      var b := Exec(rt, engine, second, next, target, a);
      assert b.regs == SetValue(s.regs, first.dst, Bool(a.regs[first.dst].v.b));
    }
  }

  lemma FusedTestMeaning(rt: Runtime, engine: Engine, first: Ins, second: Ins, jump: Ins,
                         mid: nat, next: nat, target: nat, s: State)
    requires Fusion(first, second, jump) && !s.halted && (first.Not? || first.EqNull? || first.NeqNull?)
    ensures var a := Exec(rt, engine, first, mid, 0, s);
            var b := Exec(rt, engine, second, next, target, a);
            var c := Exec(rt, engine, jump, next, target, s);
      !a.halted && PairMeaning(engine, first, jump, mid, next, target, s, a, b, c)
  {
    hide ReadAll, DropScopes, Compare;
    var a := Exec(rt, engine, first, mid, 0, s);
    assert Read(a.regs, first.dst).Bool?;
    var b := Exec(rt, engine, second, next, target, a);
    assert b.regs == SetValue(s.regs, first.dst, Bool(a.regs[first.dst].v.b));
  }

  // -------------------------------------------------------- dead registers

  predicate FallsThrough(i: Ins) {
    !(i.Jmp? || i.Loop? || i.JmpScopes? || i.Jsr? || i.Sret?)
  }

  /** Can control pass directly from instruction `k` to `t`?  An `sret` may return to
      just after any `jsr`. */
  predicate Flows(u: Program, k: nat, t: nat)
    requires k < |u.ins|
  {
    var i := u.ins[k];
    || (FallsThrough(i) && t == k + 1)
    || (i.Jumps() && i.target >= 0 && i.target in u.loc && t == u.loc[i.target])
    || (i.Sret? && 0 < t <= |u.ins| && u.ins[t - 1].Jsr?)
  }

  /** `dead` is a sound liveness annotation: nothing dead is read, and a dead register
      stays dead until it is overwritten. */
  ghost predicate DeadNotRead(u: Program, dead: seq<set<Reg>>) {
    && |dead| == |u.ins| + 1
    && (forall k | 0 <= k < |u.ins| :: Reads(u.ins[k]) !! dead[k])
    && (forall k, t | 0 <= k < |u.ins| && 0 <= t <= |u.ins| && Flows(u, k, t) ::
          dead[k] - Writes(u.ins[k]) <= dead[t])
  }

  /** The convention of the generator's callers: a temporary consumed by a conditional
      jump while unreferenced is not read after the jump. */
  ghost predicate ConditionsDead(u: Program, pairs: set<nat>, dead: seq<set<Reg>>)
    requires |dead| == |u.ins| + 1
  {
    forall k, t | k in pairs && k + 1 < |u.ins| && 0 <= t <= |u.ins| && Flows(u, k + 1, t) ::
      Writes(u.ins[k]) <= dead[t]
  }

  /** The instructions of conditional jumps whose condition is a temporary that nobody
      references. */
  function FreeJumps(calls: seq<Call>): set<nat> {
    if calls == [] then {}
    else
      var prefix, c := calls[..|calls| - 1], calls[|calls| - 1];
      FreeJumps(prefix) + if (c.JumpIfTrue? || c.JumpIfFalse?) && c.free then {|Unfused(prefix).ins|} else {}
  }

  /** Only such a jump ever absorbs the instruction before it, and that one computes its
      condition. */
  lemma {:induction false} AbsorbedAreFree(calls: seq<Call>)
    requires Legal(calls)
    ensures var u := Unfused(calls);
      forall k | k in Matching(calls).pairs ::
        && k + 1 < |u.ins| && k + 1 in FreeJumps(calls)
        && (u.ins[k + 1].JTrue? || u.ins[k + 1].JFalse? || u.ins[k + 1].LoopIfTrue?) && Writes(u.ins[k]) == {u.ins[k + 1].cond}
  {
    FusedCorresponds(calls);
    var u, m := Unfused(calls), Matching(calls);
    forall k | k in m.pairs
      ensures k + 1 < |u.ins| && k + 1 in FreeJumps(calls)
      ensures (u.ins[k + 1].JTrue? || u.ins[k + 1].JFalse? || u.ins[k + 1].LoopIfTrue?) && Writes(u.ins[k]) == {u.ins[k + 1].cond}
    {
      PairsOrdered(calls, k);
      PairBoundary(u, Fused(calls).program, m, k);
      assert Placed(u, Fused(calls).program, m, k);
      PairsFree(calls, k);
    }
  }

  lemma PairBoundary(u: Program, f: Program, m: Match, k: nat)
    requires Corresponds(u, f, m) && k in m.pairs
    ensures Boundary(m.pairs, k)
  {
    assert k > 0 && k - 1 in m.pairs ==> (k - 1) + 1 !in m.pairs;
  }

  lemma {:induction false} PairsOrdered(calls: seq<Call>, k: nat)
    requires k in Matching(calls).pairs
    ensures k < |Unfused(calls).ins|
  {
    var prefix := calls[..|calls| - 1];
    if k in Matching(prefix).pairs { PairsOrdered(prefix, k); }
  }

  lemma AbsorbsFree(o: Output, c: Call)
    requires !c.Place? && |Extend(o, c).program.ins| == |o.program.ins|
    ensures (c.JumpIfTrue? || c.JumpIfFalse?) && c.free
  {
  }

  lemma {:induction false} PairsFree(calls: seq<Call>, k: nat)
    requires k in Matching(calls).pairs
    ensures k + 1 in FreeJumps(calls)
  {
    hide Extend, Fused, Unfused;
    var prefix, c := calls[..|calls| - 1], calls[|calls| - 1];
    if k in Matching(prefix).pairs {
      PairsFree(prefix, k);
    } else {
      AbsorbsFree(Fused(prefix), c);
    }
  }

  // ------------------------------------------------------------ simulation

  /** Every return address points just after a `jsr`. */
  ghost predicate ReturnsValid(u: Program, s: State) {
    forall r | r in s.regs && s.regs[r].RetAddr? ::
      0 < s.regs[r].pc <= |u.ins| && u.ins[s.regs[r].pc - 1].Jsr?
  }

  ghost predicate InStep(u: Program, m: Match, dead: seq<set<Reg>>, s: State, s': State)
    requires |m.pos| == |u.ins| + 1 == |dead|
  {
    && s.pc <= |u.ins|
    && Boundary(m.pairs, s.pc)
    && s'.pc == m.pos[s.pc]
    && Related(m.pos, dead[s.pc], s, s')
    && ReturnsValid(u, s)
  }

  ghost predicate Setting(u: Program, f: Program, m: Match, dead: seq<set<Reg>>) {
    && Corresponds(u, f, m)
    && Closed(u)
    && DeadNotRead(u, dead)
    && ConditionsDead(u, m.pairs, dead)
  }

  predicate NullTestAgreesHere(engine: Engine, f: Program, s: State) {
    s.pc < |f.ins| ==> NullTestAgrees(engine, f.ins[s.pc], s)
  }

  function SetValue(regs: map<Reg, Cell>, d: Reg, v: Value): map<Reg, Cell> {
    regs[d := Val(v)]
  }

  /** What any instruction can do to the registers and where it can go. */
  lemma ExecShape(rt: Runtime, engine: Engine, i: Ins, next: nat, target: nat, s: State)
    requires !s.halted
    ensures var t := Exec(rt, engine, i, next, target, s);
      && (|| t.regs == s.regs
          || (exists d, v :: t.regs == SetValue(s.regs, d, v))
          || (i.Jsr? && t.regs == s.regs[i.ret := RetAddr(next)]))
      && (if t.halted then t.pc == s.pc
          else || (FallsThrough(i) && t.pc == next)
               || (i.Jumps() && t.pc == target)
               || (i.Sret? && ReadCell(s.regs, i.ret) == RetAddr(t.pc)))
  {
    hide ReadAll, ToBoolean, EqualsNull, JumpsIfNotNull, DropScopes, ReadCell;
    var t := Exec(rt, engine, i, next, target, s);
    if t.regs != s.regs && !i.Jsr? {
      var d := if i.Plain? then i.dst else if i.NextName? then i.dst else i.dst;
      assert t.regs == SetValue(s.regs, d, t.regs[d].v);
    }
  }

  lemma StepKeepsReturnsValid(rt: Runtime, engine: Engine, u: Program, s: State)
    requires Closed(u) && s.pc < |u.ins| && !s.halted && ReturnsValid(u, s)
    ensures var t := Step(rt, engine, u, s);
      ReturnsValid(u, t) && t.pc <= |u.ins| && (!t.halted ==> Flows(u, s.pc, t.pc))
  {
    hide Exec, FallsThrough;
    var i := u.ins[s.pc];
    var target := if i.Jumps() then u.loc[i.target] else 0;
    var t := Step(rt, engine, u, s);
    assert t == Exec(rt, engine, i, s.pc + 1, target, s);
    hide Step;
    ExecShape(rt, engine, i, s.pc + 1, target, s);
    if exists d, v :: t.regs == SetValue(s.regs, d, v) {
      var d, v :| t.regs == SetValue(s.regs, d, v);
      assert ReturnsValid(u, t);
    } else if i.Jsr? && t.regs == s.regs[i.ret := RetAddr(s.pc + 1)] {
      assert ReturnsValid(u, t);
    }
  }

  /** Control never enters the middle of a pair. */
  lemma FlowReachesBoundary(u: Program, f: Program, m: Match, k: nat, t: nat)
    requires Corresponds(u, f, m) && k < |u.ins| && k !in m.pairs
    requires t <= |u.ins| && Flows(u, k, t)
    ensures Boundary(m.pairs, t)
  {
    if u.ins[k].Sret? {
      assert t - 1 in m.pairs ==> Boundary(m.pairs, t - 1) && Placed(u, f, m, t - 1);
    }
  }

  /** An instruction outside every pair: one step each. */
  lemma SingleStep(rt: Runtime, engine: Engine, u: Program, f: Program, m: Match, dead: seq<set<Reg>>, s: State, s': State)
    requires Setting(u, f, m, dead) && |m.pos| == |u.ins| + 1 && InStep(u, m, dead, s, s')
    requires !s.halted && s.pc < |u.ins| && s.pc !in m.pairs
    ensures InStep(u, m, dead, Step(rt, engine, u, s), Step(rt, engine, f, s'))
  {
    hide Exec, CellsRelated, RegsRelated, Reads, Writes, ReturnsValid, Corresponds, Flows;
    var k, i := s.pc, u.ins[s.pc];
    PlacedSingle(u, f, m, k, i);
    var target, target' := if i.Jumps() then u.loc[i.target] else 0, if i.Jumps() then f.loc[i.target] else 0;
    StepKeepsReturnsValid(rt, engine, u, s);
    ExecRelated(rt, engine, m.pos, dead[k], i, k + 1, target, s'.pc + 1, target', s, s');
    var t, t' := Step(rt, engine, u, s), Step(rt, engine, f, s');
    assert t == Exec(rt, engine, i, k + 1, target, s) && t' == Exec(rt, engine, i, s'.pc + 1, target', s');
    if !t.halted {
      DeadGrows(m.pos, dead[k] - Writes(i), dead[t.pc], t.regs, t'.regs);
      FlowReachesBoundary(u, f, m, k, t.pc);
    }
  }

  lemma PlacedSingle(u: Program, f: Program, m: Match, k: nat, i: Ins)
    requires Corresponds(u, f, m) && Closed(u) && k < |u.ins| && u.ins[k] == i
    requires Boundary(m.pairs, k) && k !in m.pairs
    ensures m.pos[k] < |f.ins| && f.ins[m.pos[k]] == i && m.pos[k + 1] == m.pos[k] + 1
    ensures i.Jumps() ==> i.target in f.loc && u.loc[i.target] <= |u.ins| && f.loc[i.target] == m.pos[u.loc[i.target]]
  {
    assert Placed(u, f, m, k);
  }

  lemma PlacedPair(u: Program, f: Program, m: Match, k: nat)
    requires Corresponds(u, f, m) && Closed(u) && Boundary(m.pairs, k) && k in m.pairs
    ensures k + 1 < |u.ins| && k + 1 !in m.pairs && m.pos[k] < |f.ins| && m.pos[k + 2] == m.pos[k] + 1
    ensures var second, jump := u.ins[k + 1], f.ins[m.pos[k]];
      && Fusion(u.ins[k], second, jump)
      && second.Jumps() && second.target in u.loc && u.loc[second.target] <= |u.ins|
      && jump.Jumps() && jump.target == second.target && jump.target in f.loc
      && f.loc[jump.target] == m.pos[u.loc[second.target]]
      && Boundary(m.pairs, u.loc[second.target])
      && Reads(jump) == Reads(u.ins[k]) && Writes(jump) == {}
      && FallsThrough(u.ins[k]) && !u.ins[k].Jumps() && FallsThrough(second) && u.ins[k].Absorbable() && Writes(u.ins[k]) == {u.ins[k].dst} && Writes(second) == {}
  {
    hide Closed, Fusion, Reads, Writes, FallsThrough, Ins.Jumps, Ins.Absorbable;
    assert Placed(u, f, m, k);
    FusionShape(u.ins[k], u.ins[k + 1], f.ins[m.pos[k]]);
    TargetPlaced(u, k + 1);
  }

  lemma TargetPlaced(u: Program, k: nat)
    requires Closed(u) && k < |u.ins| && u.ins[k].Jumps()
    ensures u.ins[k].target >= 0 && u.ins[k].target in u.loc && u.loc[u.ins[k].target] <= |u.ins|
  {
  }

  lemma FusionShape(first: Ins, second: Ins, jump: Ins)
    requires Fusion(first, second, jump)
    ensures second.Jumps() && jump.Jumps() && jump.target == second.target
    ensures Reads(jump) == Reads(first) && Writes(jump) == {}
    ensures FallsThrough(first) && !first.Jumps() && FallsThrough(second) && first.Absorbable()
    ensures Writes(first) == {first.dst} && Writes(second) == {}
  {
  }

  /** What is dead before a pair, and its condition, is dead after it. */
  lemma DeadAcrossPair(u: Program, f: Program, m: Match, dead: seq<set<Reg>>, k: nat, t: nat)
    requires Setting(u, f, m, dead) && Boundary(m.pairs, k) && k in m.pairs
    requires k + 1 < |u.ins| && t <= |u.ins| && Flows(u, k + 1, t)
    ensures dead[k] <= dead[t] && Writes(u.ins[k]) <= dead[t]
  {
    PlacedPair(u, f, m, k);
    assert Flows(u, k, k + 1);
    assert dead[k] - Writes(u.ins[k]) <= dead[k + 1];
    assert dead[k + 1] - Writes(u.ins[k + 1]) <= dead[t];
  }

  /** Two steps of the unfused program over a pair, against its jump run in their place. */
  lemma PairUnfused(rt: Runtime, engine: Engine, u: Program, f: Program, m: Match, k: nat, s: State)
    requires Corresponds(u, f, m) && Closed(u) && Boundary(m.pairs, k) && k in m.pairs
    requires !s.halted && s.pc == k && ReturnsValid(u, s) && |m.pos| == |u.ins| + 1
    requires k + 1 < |u.ins| && u.ins[k + 1].Jumps() && u.ins[k + 1].target in u.loc && m.pos[k] < |f.ins|
    requires NullTestAgrees(engine, f.ins[m.pos[k]], s)
    ensures var a := Step(rt, engine, u, s);
            var c := Exec(rt, engine, f.ins[m.pos[k]], k + 2, u.loc[u.ins[k + 1].target], s);
      && ReturnsValid(u, a)
      && c.halted == a.halted && c.regs == s.regs
      && (a.halted ==> a == s.(log := a.log, halted := true) && c == a)
      && (!a.halted ==>
            var b := Step(rt, engine, u, a);
            && a.pc == k + 1 && b.pc == c.pc <= |u.ins| && Boundary(m.pairs, b.pc)
            && c.log == b.log && c.scopes == b.scopes && c.halted == b.halted
            && (u.ins[k].Absorbable() && exists holds :: b.regs == SetValue(c.regs, u.ins[k].dst, Bool(holds)))
            && Flows(u, k + 1, b.pc) && ReturnsValid(u, b))
  {
    hide Exec, Step, Corresponds, Reads, Writes, ReturnsValid, NullTestAgrees, FallsThrough, Closed, Flows, Fusion;
    PlacedPair(u, f, m, k);
    var first, second, jump := u.ins[k], u.ins[k + 1], f.ins[m.pos[k]];
    var target := u.loc[second.target];
    StepIsExec(rt, engine, u, s, 0);
    PairScopes(rt, engine, first, second, jump, k + 1, k + 2, target, s);
    FusedPairMeaning(rt, engine, first, second, jump, k + 1, k + 2, target, s);
    var a := Step(rt, engine, u, s);
    StepKeepsReturnsValid(rt, engine, u, s);
    if !a.halted {
      StepIsExec(rt, engine, u, a, target);
      StepKeepsReturnsValid(rt, engine, u, a);
    }
  }

  lemma PairScopes(rt: Runtime, engine: Engine, first: Ins, second: Ins, jump: Ins, mid: nat, next: nat, target: nat, s: State)
    requires Fusion(first, second, jump) && !s.halted
    ensures Exec(rt, engine, first, mid, 0, s).scopes == s.scopes
    ensures Exec(rt, engine, jump, next, target, s).scopes == s.scopes
  {
  }

  /** The step of the fused program, against its jump run by the unfused one. */
  lemma PairFused(rt: Runtime, engine: Engine, u: Program, f: Program, m: Match, dead: seq<set<Reg>>, k: nat, s: State, s': State)
    requires Corresponds(u, f, m) && Closed(u) && Boundary(m.pairs, k) && k in m.pairs
    requires k + 1 < |u.ins| == |dead| - 1 && u.ins[k + 1].Jumps() && u.ins[k + 1].target in u.loc && m.pos[k] < |f.ins|
    requires Related(m.pos, dead[k], s, s') && !s.halted && Reads(u.ins[k]) !! dead[k]
    requires s'.pc == m.pos[k] && s.pc == k
    ensures var c, t' := Exec(rt, engine, f.ins[m.pos[k]], k + 2, u.loc[u.ins[k + 1].target], s), Step(rt, engine, f, s');
      && Related(m.pos, dead[k], c, t')
      && (if c.halted then c.pc == k && t'.pc == s'.pc else c.pc < |m.pos| && t'.pc == m.pos[c.pc])
  {
    PlacedPair(u, f, m, k);
    var jump, target := f.ins[m.pos[k]], u.loc[u.ins[k + 1].target];
    hide Exec, Step, Corresponds, CellsRelated, RegsRelated, Reads, Writes, Fusion, FallsThrough, Closed;
    assert dead[k] - Writes(jump) == dead[k];
    ExecRelated(rt, engine, m.pos, dead[k], jump, k + 2, target, m.pos[k] + 1, m.pos[target], s, s');
    StepIsExec(rt, engine, f, s', m.pos[target]);
  }

  /** A fused pair: two steps of the unfused program, one of the fused one. */
  lemma PairStep(rt: Runtime, engine: Engine, u: Program, f: Program, m: Match, dead: seq<set<Reg>>, s: State, s': State)
    requires Setting(u, f, m, dead) && |m.pos| == |u.ins| + 1 && InStep(u, m, dead, s, s')
    requires !s.halted && s.pc in m.pairs
    requires NullTestAgreesHere(engine, f, s')
    ensures var a, t' := Step(rt, engine, u, s), Step(rt, engine, f, s');
      if a.halted then InStep(u, m, dead, a, t') else a.pc == s.pc + 1 && InStep(u, m, dead, Step(rt, engine, u, a), t')
  {
    var k := s.pc;
    hide Exec, Step, Fusion, FallsThrough, CellsRelated, RegsRelated, Writes, Flows, NullTestAgrees, ReturnsValid;
    PlacedPair(u, f, m, k);
    NullTestTransfers(engine, u, m, dead, f.ins[m.pos[k]], s, s');
    PairUnfused(rt, engine, u, f, m, k, s);
    PairFused(rt, engine, u, f, m, dead, k, s, s');
    hide Corresponds, Reads, Closed, DeadNotRead, ConditionsDead;
    var a, t' := Step(rt, engine, u, s), Step(rt, engine, f, s');
    if !a.halted {
      PairEnd(u, f, m, dead, k, Exec(rt, engine, f.ins[m.pos[k]], k + 2, u.loc[u.ins[k + 1].target], s), Step(rt, engine, u, a), t');
    }
  }

  /** The state after a pair, `b`, differs from that of the fused jump, `c`, in the condition only. */
  lemma PairEnd(u: Program, f: Program, m: Match, dead: seq<set<Reg>>, k: nat, c: State, b: State, t': State)
    requires Setting(u, f, m, dead) && Boundary(m.pairs, k) && k in m.pairs
    requires k + 1 < |u.ins| && b.pc <= |u.ins| && Flows(u, k + 1, b.pc) && ReturnsValid(u, b)
    requires Boundary(m.pairs, b.pc) && b.pc < |m.pos| && t'.pc == m.pos[b.pc]
    requires c.log == b.log && c.scopes == b.scopes && c.halted == b.halted
    requires u.ins[k].Absorbable() && Writes(u.ins[k]) == {u.ins[k].dst}
    requires exists holds :: b.regs == SetValue(c.regs, u.ins[k].dst, Bool(holds))
    requires Related(m.pos, dead[k], c, t')
    ensures |m.pos| == |u.ins| + 1 && InStep(u, m, dead, b, t')
  {
    DeadAcrossPair(u, f, m, dead, k, b.pc);
    DeadGrows(m.pos, dead[k], dead[b.pc], c.regs, t'.regs);
    DeadDiffers(m.pos, dead[b.pc], c.regs, b.regs, t'.regs, u.ins[k].dst);
  }

  lemma StepIsExec(rt: Runtime, engine: Engine, p: Program, s: State, target: nat)
    requires !s.halted && s.pc < |p.ins|
    requires var i := p.ins[s.pc];
      if i.Jumps() then i.target >= 0 && i.target in p.loc && p.loc[i.target] == target else target == 0
    ensures Step(rt, engine, p, s) == Exec(rt, engine, p.ins[s.pc], s.pc + 1, target, s)
  {
    hide Exec;
  }

  lemma NullTestTransfers(engine: Engine, u: Program, m: Match, dead: seq<set<Reg>>, jump: Ins, s: State, s': State)
    requires |m.pos| == |u.ins| + 1 == |dead| && InStep(u, m, dead, s, s')
    requires Reads(jump) !! dead[s.pc]
    requires NullTestAgrees(engine, jump, s')
    ensures NullTestAgrees(engine, jump, s)
  {
    if jump.JNeqNull? {
      ReadsAgree(m.pos, dead[s.pc], s, s', jump.src);
    }
  }

  lemma DeadDiffers(pos: seq<nat>, dead: set<Reg>, regs: map<Reg, Cell>, written: map<Reg, Cell>, regs': map<Reg, Cell>, d: Reg)
    requires RegsRelated(pos, dead, regs, regs') && d in dead
    requires exists holds :: written == SetValue(regs, d, Bool(holds))
    ensures RegsRelated(pos, dead, written, regs')
  {
    forall r | r !in dead ensures CellsRelated(pos, ReadCell(written, r), ReadCell(regs', r)) {
      assert ReadCell(written, r) == ReadCell(regs, r);
    }
  }

  // ------------------------------------------------------------ whole runs

  /** No fused null test of the first `count` steps separates the two engines. */
  ghost predicate NullTestsAgree(rt: Runtime, engine: Engine, f: Program, s: State, count: nat) {
    forall j: nat :: j < count ==> NullTestAgreesHere(engine, f, Run(rt, engine, f, s, j))
  }

  /** Each state of a fused run is a state of the unfused run. */
  lemma {:induction false} FusedRunFollowed(rt: Runtime, engine: Engine, u: Program, f: Program, m: Match, dead: seq<set<Reg>>,
                                            s: State, s': State, count: nat) returns (n: nat)
    requires Setting(u, f, m, dead) && |m.pos| == |u.ins| + 1 == |dead| && InStep(u, m, dead, s, s')
    requires NullTestsAgree(rt, engine, f, s', count)
    ensures InStep(u, m, dead, Run(rt, engine, u, s, n), Run(rt, engine, f, s', count))
    decreases count
  {
    hide Setting, Step, InStep;
    if count == 0 {
      n := 0;
    } else {
      var n' := FusedRunFollowed(rt, engine, u, f, m, dead, s, s', count - 1);
      var k := StepFollowed(rt, engine, u, f, m, dead, Run(rt, engine, u, s, n'), Run(rt, engine, f, s', count - 1));
      n := n' + k;
      RunAdd(rt, engine, u, s, n', k);
    }
  }

  /** One step of the fused program is followed by zero, one or two of the unfused one. */
  lemma StepFollowed(rt: Runtime, engine: Engine, u: Program, f: Program, m: Match, dead: seq<set<Reg>>,
                     t: State, t': State) returns (k: nat)
    requires Setting(u, f, m, dead) && |m.pos| == |u.ins| + 1 == |dead| && InStep(u, m, dead, t, t')
    requires NullTestAgreesHere(engine, f, t')
    ensures InStep(u, m, dead, Run(rt, engine, u, t, k), Step(rt, engine, f, t'))
  {
    hide NullTestAgreesHere;
    if t.halted || t.pc == |u.ins| {
      k := 0;
    } else if t.pc in m.pairs {
      PairStep(rt, engine, u, f, m, dead, t, t');
      k := if Step(rt, engine, u, t).halted then 1 else 2;
      hide InStep, Setting, Step;
      assert Run(rt, engine, u, t, 1) == Step(rt, engine, u, Run(rt, engine, u, t, 0));
    } else {
      SingleStep(rt, engine, u, f, m, dead, t, t');
      k := 1;
      hide InStep, Setting, Step;
      assert Run(rt, engine, u, t, 1) == Step(rt, engine, u, Run(rt, engine, u, t, 0));
    }
  }

  /** The unfused run is between the two instructions of a pair the fused run is about to execute. */
  ghost predicate MidPair(rt: Runtime, engine: Engine, u: Program, m: Match, dead: seq<set<Reg>>, before: State, after: State, t': State)
    requires |m.pos| == |u.ins| + 1 == |dead|
  {
    && InStep(u, m, dead, before, t')
    && before.pc in m.pairs && !before.halted
    && after == Step(rt, engine, u, before) && !after.halted
  }

  /** Each state of an unfused run is a state of the fused run, or lies within a pair. */
  lemma {:induction false} UnfusedRunFollowed(rt: Runtime, engine: Engine, u: Program, f: Program, m: Match, dead: seq<set<Reg>>,
                                              s: State, s': State, count: nat) returns (n: nat)
    requires Setting(u, f, m, dead) && |m.pos| == |u.ins| + 1 == |dead| && InStep(u, m, dead, s, s')
    requires forall j: nat :: NullTestAgreesHere(engine, f, Run(rt, engine, f, s', j))
    ensures
      || InStep(u, m, dead, Run(rt, engine, u, s, count), Run(rt, engine, f, s', n))
      || (count > 0 && MidPair(rt, engine, u, m, dead, Run(rt, engine, u, s, count - 1), Run(rt, engine, u, s, count), Run(rt, engine, f, s', n)))
    decreases count
  {
    hide Setting, Step, InStep, NullTestAgreesHere;
    if count == 0 {
      n := 0;
    } else {
      var n' := UnfusedRunFollowed(rt, engine, u, f, m, dead, s, s', count - 1);
      var t, t' := Run(rt, engine, u, s, count - 1), Run(rt, engine, f, s', n');
      if InStep(u, m, dead, t, t') {
        if t.halted || t.pc >= |u.ins| {
          n := n';
          StoppedStays(rt, engine, u, t);
        } else if t.pc in m.pairs {
          PairStep(rt, engine, u, f, m, dead, t, t');
          n := if Step(rt, engine, u, t).halted then n' + 1 else n';
        } else {
          SingleStep(rt, engine, u, f, m, dead, t, t');
          n := n' + 1;
        }
      } else {
        var before := Run(rt, engine, u, s, count - 2);
        PairStep(rt, engine, u, f, m, dead, before, t');
        n := n' + 1;
      }
    }
  }

  lemma StoppedStays(rt: Runtime, engine: Engine, p: Program, s: State)
    requires s.halted || s.pc >= |p.ins|
    ensures Step(rt, engine, p, s) == s
  {
  }
}
