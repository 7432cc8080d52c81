/** When two runs of the machine stay in step although their program counters differ.

    `pos` sends program counters of the first run to those of the second; registers
    in a set of dead registers may differ, and return addresses correspond under `pos`.
 */
module Relate {
  import opened Bytecode

  function Reads(i: Ins): set<Reg> {
    match i
    case Plain(_, _, args, _) => set r | r in args
    case Less(_, a, b) => {a, b}
    case LessEq(_, a, b) => {a, b}
    case Not(_, s) => {s}
    case EqNull(_, s) => {s}
    case NeqNull(_, s) => {s}
    case Jmp(_) => {}
    case Loop(_) => {}
    case JTrue(c, _) => {c}
    case JFalse(c, _) => {c}
    case LoopIfTrue(c, _) => {c}
    case JEqNull(s, _) => {s}
    case JNeqNull(s, _) => {s}
    case JNLess(a, b, _) => {a, b}
    case LoopIfLess(a, b, _) => {a, b}
    case LoopIfLessEq(a, b, _) => {a, b}
    case NextName(_, it, _) => {it}
    case JmpScopes(_, _) => {}
    case Jsr(_, _) => {}
    case Sret(r) => {r}
    case PushScope(s) => {s}
    case PopScope => {}
  }

  /** The register an instruction always overwrites. */
  function Writes(i: Ins): set<Reg> {
    match i
    case Plain(_, d, _, _) => {d}
    case Less(d, _, _) => {d}
    case LessEq(d, _, _) => {d}
    case Not(d, _) => {d}
    case EqNull(d, _) => {d}
    case NeqNull(d, _) => {d}
    case Jsr(r, _) => {r}
    case _ => {}
  }

  ghost predicate CellsRelated(pos: seq<nat>, c: Cell, c': Cell) {
    match c
    case Val(_) => c' == c
    case RetAddr(p) => p < |pos| && c' == RetAddr(pos[p])
  }

  ghost predicate RegsRelated(pos: seq<nat>, dead: set<Reg>, regs: map<Reg, Cell>, regs': map<Reg, Cell>) {
    forall r :: r !in dead ==> CellsRelated(pos, ReadCell(regs, r), ReadCell(regs', r))
  }

  /** Everything but the program counters. */
  ghost predicate Related(pos: seq<nat>, dead: set<Reg>, s: State, s': State) {
    && s'.scopes == s.scopes
    && s'.log == s.log
    && s'.halted == s.halted
    && RegsRelated(pos, dead, s.regs, s'.regs)
  }

  function Retarget(i: Ins, t: int): Ins {
    if i.Jumps() then i.(target := t) else i
  }

  lemma ExecIgnoresTargetField(rt: Runtime, engine: Engine, i: Ins, t: int, next: nat, target: nat, s: State)
    ensures Exec(rt, engine, Retarget(i, t), next, target, s) == Exec(rt, engine, i, next, target, s)
  {
  }

  lemma ReadsAgree(pos: seq<nat>, dead: set<Reg>, s: State, s': State, r: Reg)
    requires Related(pos, dead, s, s') && r !in dead
    ensures Read(s.regs, r) == Read(s'.regs, r)
    ensures CellsRelated(pos, ReadCell(s.regs, r), ReadCell(s'.regs, r))
  {
  }

  lemma WriteRelated(pos: seq<nat>, dead: set<Reg>, regs: map<Reg, Cell>, regs': map<Reg, Cell>, d: Reg, c: Cell, c': Cell)
    requires RegsRelated(pos, dead, regs, regs') && CellsRelated(pos, c, c')
    ensures RegsRelated(pos, dead - {d}, regs[d := c], regs'[d := c'])
  {
    forall r | r !in dead - {d}
      ensures CellsRelated(pos, ReadCell(regs[d := c], r), ReadCell(regs'[d := c'], r))
    {
      if r != d {
        assert ReadCell(regs[d := c], r) == ReadCell(regs, r);
        assert ReadCell(regs'[d := c'], r) == ReadCell(regs', r);
      }
    }
  }

  lemma CompareRelated(rt: Runtime, pos: seq<nat>, dead: set<Reg>, s: State, s': State, op: Comparison, a: Reg, b: Reg)
    requires Related(pos, dead, s, s') && a !in dead && b !in dead
    ensures var (t, h), (t', h') := Compare(rt, s, op, a, b), Compare(rt, s', op, a, b);
      && Related(pos, dead, t, t') && h == h' && t.regs == s.regs && t'.regs == s'.regs
      && t.pc == s.pc && t'.pc == s'.pc
  {
    ReadsAgree(pos, dead, s, s', a);
    ReadsAgree(pos, dead, s, s', b);
  }

  /** The instructions that touch scopes, return addresses or property names. */
  lemma SpecialRelated(rt: Runtime, engine: Engine, pos: seq<nat>, dead: set<Reg>, i: Ins,
                       next: nat, target: nat, next': nat, target': nat, s: State, s': State)
    requires i.NextName? || i.JmpScopes? || i.Jsr? || i.Sret? || i.PushScope? || i.PopScope?
    requires Related(pos, dead, s, s') && !s.halted
    requires Reads(i) !! dead
    requires next < |pos| && next' == pos[next]
    requires i.Jumps() ==> target < |pos| && target' == pos[target]
    ensures var t, t' := Exec(rt, engine, i, next, target, s), Exec(rt, engine, i, next', target', s');
      && Related(pos, if t.halted then dead else dead - Writes(i), t, t')
      && (t.halted ==> t.pc == s.pc && t'.pc == s'.pc)
      && (!t.halted ==> t.pc < |pos| && t'.pc == pos[t.pc])
  {
    hide RegsRelated, ReadCell, DropScopes;
    assert Writes(i) == {} ==> dead - Writes(i) == dead;
    match i
    case NextName(d, r, _) =>
      ReadsAgree(pos, dead, s, s', r);
      var name := rt.nextName(s.log, Read(s.regs, r));
      if name.Some? {
        WriteRelated(pos, dead, s.regs, s'.regs, d, Val(name.value), Val(name.value));
        DeadGrows(pos, dead - {d}, dead, s.regs[d := Val(name.value)], s'.regs[d := Val(name.value)]);
      }
    case JmpScopes(_, _) =>
    case Jsr(r, _) => WriteRelated(pos, dead, s.regs, s'.regs, r, RetAddr(next), RetAddr(next'));
    case Sret(r) => ReadsAgree(pos, dead, s, s', r);
    case PushScope(r) => ReadsAgree(pos, dead, s, s', r);
    case PopScope =>
  }

  lemma DeadGrows(pos: seq<nat>, dead: set<Reg>, dead': set<Reg>, regs: map<Reg, Cell>, regs': map<Reg, Cell>)
    requires RegsRelated(pos, dead, regs, regs') && dead <= dead'
    ensures RegsRelated(pos, dead', regs, regs')
  {
  }

  /** The instructions that compute a value. */
  lemma ValueRelated(rt: Runtime, engine: Engine, pos: seq<nat>, dead: set<Reg>, i: Ins,
                     next: nat, target: nat, next': nat, target': nat, s: State, s': State)
    requires i.Plain? || i.Less? || i.LessEq? || i.Not? || i.EqNull? || i.NeqNull?
    requires Related(pos, dead, s, s') && !s.halted
    requires Reads(i) !! dead
    requires next < |pos| && next' == pos[next]
    requires i.Jumps() ==> target < |pos| && target' == pos[target]
    ensures var t, t' := Exec(rt, engine, i, next, target, s), Exec(rt, engine, i, next', target', s');
      && Related(pos, if t.halted then dead else dead - Writes(i), t, t')
      && (t.halted ==> t.pc == s.pc && t'.pc == s'.pc)
      && (!t.halted ==> t.pc < |pos| && t'.pc == pos[t.pc])
  {
    hide RegsRelated, ReadCell, Compare, ToBoolean, EqualsNull, JumpsIfNotNull, DropScopes, ReadAll;
    var t, t' := Exec(rt, engine, i, next, target, s), Exec(rt, engine, i, next', target', s');
    match i
    case Plain(_, d, args, _) =>
      forall k | 0 <= k < |args| ensures Read(s.regs, args[k]) == Read(s'.regs, args[k]) {
        ReadsAgree(pos, dead, s, s', args[k]);
      }
      assert ReadAll(s.regs, args) == ReadAll(s'.regs, args);
      if !t.halted { WriteRelated(pos, dead, s.regs, s'.regs, d, t.regs[d], t'.regs[d]); }
    case Less(d, a, b) =>
      CompareRelated(rt, pos, dead, s, s', LessThan, a, b);
      if !t.halted { WriteRelated(pos, dead, s.regs, s'.regs, d, t.regs[d], t'.regs[d]); }
    case LessEq(d, a, b) =>
      CompareRelated(rt, pos, dead, s, s', LessOrEqual, a, b);
      if !t.halted { WriteRelated(pos, dead, s.regs, s'.regs, d, t.regs[d], t'.regs[d]); }
    case Not(d, r) => ReadsAgree(pos, dead, s, s', r); WriteRelated(pos, dead, s.regs, s'.regs, d, t.regs[d], t'.regs[d]);
    case EqNull(d, r) => ReadsAgree(pos, dead, s, s', r); WriteRelated(pos, dead, s.regs, s'.regs, d, t.regs[d], t'.regs[d]);
    case NeqNull(d, r) => ReadsAgree(pos, dead, s, s', r); WriteRelated(pos, dead, s.regs, s'.regs, d, t.regs[d], t'.regs[d]);
  }

  /** The jumps that touch no register. */
  lemma JumpRelated(rt: Runtime, engine: Engine, pos: seq<nat>, dead: set<Reg>, i: Ins,
                    next: nat, target: nat, next': nat, target': nat, s: State, s': State)
    requires i.Jumps() && !i.NextName? && !i.JmpScopes? && !i.Jsr?
    requires Related(pos, dead, s, s') && !s.halted
    requires Reads(i) !! dead
    requires next < |pos| && next' == pos[next]
    requires i.Jumps() ==> target < |pos| && target' == pos[target]
    ensures var t, t' := Exec(rt, engine, i, next, target, s), Exec(rt, engine, i, next', target', s');
      && Related(pos, if t.halted then dead else dead - Writes(i), t, t')
      && (t.halted ==> t.pc == s.pc && t'.pc == s'.pc)
      && (!t.halted ==> t.pc < |pos| && t'.pc == pos[t.pc])
  {
    hide RegsRelated, ReadCell, Compare, ToBoolean, EqualsNull, JumpsIfNotNull, DropScopes, ReadAll;
    assert dead - Writes(i) == dead;
    match i
    case Jmp(_) =>
    case Loop(_) =>
    case JTrue(r, _) => ReadsAgree(pos, dead, s, s', r);
    case JFalse(r, _) => ReadsAgree(pos, dead, s, s', r);
    case LoopIfTrue(r, _) => ReadsAgree(pos, dead, s, s', r);
    case JEqNull(r, _) => ReadsAgree(pos, dead, s, s', r);
    case JNeqNull(r, _) => ReadsAgree(pos, dead, s, s', r);
    case JNLess(a, b, _) => CompareRelated(rt, pos, dead, s, s', LessThan, a, b);
    case LoopIfLess(a, b, _) => CompareRelated(rt, pos, dead, s, s', LessThan, a, b);
    case LoopIfLessEq(a, b, _) => CompareRelated(rt, pos, dead, s, s', LessOrEqual, a, b);
  }

  /** The same instruction keeps related states related. */
  lemma ExecRelated(rt: Runtime, engine: Engine, pos: seq<nat>, dead: set<Reg>, i: Ins,
                    next: nat, target: nat, next': nat, target': nat, s: State, s': State)
    requires Related(pos, dead, s, s') && !s.halted
    requires Reads(i) !! dead
    requires next < |pos| && next' == pos[next]
    requires i.Jumps() ==> target < |pos| && target' == pos[target]
    ensures var t, t' := Exec(rt, engine, i, next, target, s), Exec(rt, engine, i, next', target', s');
      && Related(pos, if t.halted then dead else dead - Writes(i), t, t')
      && (t.halted ==> t.pc == s.pc && t'.pc == s'.pc)
      && (!t.halted ==> t.pc < |pos| && t'.pc == pos[t.pc])
  {
    hide Exec, Related, Reads, Writes;
    if i.Plain? || i.Less? || i.LessEq? || i.Not? || i.EqNull? || i.NeqNull? {
      ValueRelated(rt, engine, pos, dead, i, next, target, next', target', s, s');
    } else if i.Jumps() && !i.NextName? && !i.JmpScopes? && !i.Jsr? {
      JumpRelated(rt, engine, pos, dead, i, next, target, next', target', s, s');
    } else {
      SpecialRelated(rt, engine, pos, dead, i, next, target, next', target', s, s');
    }
  }
}
