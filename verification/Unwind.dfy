/** Leaving scopes: what a break, continue or return emits to pop `with` scopes and to
    run `finally` blocks on its way out, and what running it does. */
module Unwind {
  import opened Bytecode
  import opened Peephole

  /** A context the jump leaves: a pushed scope, or a finally block given by its label and
      the register its return address goes to. */
  datatype Context = Scope | Finally(addr: Label, ret: Reg)

  /** The scopes pushed by the first `k` contexts. */
  function Depth(cs: seq<Context>, k: nat): (d: nat)
    requires k <= |cs|
    ensures d <= k
  {
    if k == 0 then 0 else Depth(cs, k - 1) + if cs[k - 1].Scope? then 1 else 0
  }

  /** The scopes directly below `top`, down to `bottom` or the nearest finally block. */
  function Normals(cs: seq<Context>, top: nat, bottom: nat): (n: nat)
    requires bottom <= top <= |cs|
    ensures n <= top - bottom
    ensures forall k | top - n <= k < top :: cs[k].Scope?
    ensures n == top - bottom || cs[top - n - 1].Finally?
  {
    if top == bottom || cs[top - 1].Finally? then 0 else 1 + Normals(cs, top - 1, bottom)
  }

  lemma {:induction false} AllNormals(cs: seq<Context>, top: nat, bottom: nat)
    requires bottom <= top <= |cs| && forall k | bottom <= k < top :: cs[k].Scope?
    ensures Normals(cs, top, bottom) == top - bottom
  {
    if bottom < top { AllNormals(cs, top - 1, bottom); }
  }

  /** The calls that leave contexts `bottom..top`; `next` is the first unused label. */
  function UnwindCalls(cs: seq<Context>, top: nat, bottom: nat, target: Label, next: Label): seq<Call>
    requires bottom <= top <= |cs|
    decreases top
  {
    if top == bottom then [Jump(target)]
    else
      var n := Normals(cs, top, bottom);
      if n == 0 then
        [Emit(Jsr(cs[top - 1].ret, cs[top - 1].addr))] + UnwindCalls(cs, top - 1, bottom, target, next)
      else if top - n == bottom then
        [Emit(JmpScopes(n, target))]
      else
        [Emit(JmpScopes(n, next)), Place(next)] + UnwindCalls(cs, top - n, bottom, target, next + 1)
  }

  lemma UnwindNothing(cs: seq<Context>, top: nat, target: Label, next: Label)
    requires top <= |cs|
    ensures UnwindCalls(cs, top, top, target, next) == [Jump(target)]
  {
  }

  lemma UnwindFinally(cs: seq<Context>, top: nat, bottom: nat, target: Label, next: Label)
    requires bottom < top <= |cs| && cs[top - 1].Finally?
    ensures UnwindCalls(cs, top, bottom, target, next) ==
      [Emit(Jsr(cs[top - 1].ret, cs[top - 1].addr))] + UnwindCalls(cs, top - 1, bottom, target, next)
  {
  }

  lemma UnwindNormals(cs: seq<Context>, top: nat, bottom: nat, target: Label, next: Label)
    requires bottom < top <= |cs| && Normals(cs, top, bottom) > 0
    ensures var n := Normals(cs, top, bottom);
      UnwindCalls(cs, top, bottom, target, next) ==
        if top - n == bottom then [Emit(JmpScopes(n, target))]
        else [Emit(JmpScopes(n, next)), Place(next)] + UnwindCalls(cs, top - n, bottom, target, next + 1)
  {
    hide Normals;
  }

  // ------------------------------------------------- where the code ends up

  /** The instructions at `a` leave contexts `bottom..top` for `target`. */
  ghost predicate UnwindAt(p: Program, a: nat, cs: seq<Context>, top: nat, bottom: nat, target: Label)
    requires bottom <= top <= |cs|
    decreases top
  {
    a < |p.ins| &&
    if top == bottom then
      p.ins[a] == Jmp(target)
    else
      var n := Normals(cs, top, bottom);
      if n == 0 then
        p.ins[a] == Jsr(cs[top - 1].ret, cs[top - 1].addr) && UnwindAt(p, a + 1, cs, top - 1, bottom, target)
      else if top - n == bottom then
        p.ins[a] == JmpScopes(n, target)
      else
        && p.ins[a].JmpScopes? && p.ins[a].count == n
        && p.ins[a].target >= 0 && p.ins[a].target in p.loc && p.loc[p.ins[a].target] == a + 1
        && UnwindAt(p, a + 1, cs, top - n, bottom, target)
  }

  /** A program grows: what cannot be absorbed stays, and labels stay placed. */
  ghost predicate Grows(p: Program, q: Program) {
    && (forall k | 0 <= k < |p.ins| && !p.ins[k].Absorbable() :: k < |q.ins| && q.ins[k] == p.ins[k])
    && (forall l | l in p.loc :: l in q.loc && q.loc[l] == p.loc[l])
  }

  lemma ExtendGrows(o: Output, c: Call)
    requires Allowed(o.program.loc, c)
    ensures Grows(o.program, Extend(o, c).program)
  {
  }

  lemma {:induction false} CallsGrow(calls: seq<Call>, more: seq<Call>)
    requires Legal(calls + more)
    ensures Legal(calls)
    ensures Grows(Fused(calls).program, Fused(calls + more).program)
    decreases |more|
  {
    if more == [] {
      assert calls + more == calls;
    } else {
      var before, c := more[..|more| - 1], more[|more| - 1];
      assert (calls + more)[..|calls + more| - 1] == calls + before;
      CallsGrow(calls, before);
      FusedCorresponds(calls + before);
      ExtendGrows(Fused(calls + before), c);
      GrowsTransitive(Fused(calls).program, Fused(calls + before).program, Fused(calls + more).program);
    }
  }

  lemma GrowsTransitive(p: Program, q: Program, r: Program)
    requires Grows(p, q) && Grows(q, r)
    ensures Grows(p, r)
  {
  }

  /** Later emission never disturbs emitted unwinding code. */
  lemma {:induction false} UnwindStays(p: Program, q: Program, a: nat, cs: seq<Context>, top: nat, bottom: nat, target: Label)
    requires bottom <= top <= |cs| && Grows(p, q) && UnwindAt(p, a, cs, top, bottom, target)
    ensures UnwindAt(q, a, cs, top, bottom, target)
    decreases top
  {
    if top > bottom {
      var n := Normals(cs, top, bottom);
      if n == 0 {
        UnwindStays(p, q, a + 1, cs, top - 1, bottom, target);
      } else if top - n > bottom {
        UnwindStays(p, q, a + 1, cs, top - n, bottom, target);
      }
    }
  }

  /** Emitting the calls puts the code at the end of the program. */
  lemma {:induction false} UnwindEmitted(calls: seq<Call>, cs: seq<Context>, top: nat, bottom: nat, target: Label, next: Label)
    requires bottom <= top <= |cs|
    requires Legal(calls + UnwindCalls(cs, top, bottom, target, next))
    requires target !in Fused(calls).program.loc && target < next
    ensures UnwindAt(Fused(calls + UnwindCalls(cs, top, bottom, target, next)).program, |Fused(calls).program.ins|, cs, top, bottom, target)
    decreases top
  {
    hide Legal, Fused, UnwindAt, UnwindCalls, Normals;
    var n := Normals(cs, top, bottom);
    if top == bottom {
      UnwindNothing(cs, top, target, next);
    } else if n == 0 {
      UnwindFinally(cs, top, bottom, target, next);
    } else {
      UnwindNormals(cs, top, bottom, target, next);
    }
    if n == top - bottom {
      var c := if top == bottom then Jump(target) else Emit(JmpScopes(n, target));
      OneMore(calls, c);
      AtLast(Fused(calls + [c]).program, |Fused(calls).program.ins|, cs, top, bottom, target);
    } else if n == 0 {
      var c, rest := Emit(Jsr(cs[top - 1].ret, cs[top - 1].addr)), UnwindCalls(cs, top - 1, bottom, target, next);
      assert calls + ([c] + rest) == (calls + [c]) + rest;
      StillForward(calls, c, target);
      UnwindEmitted(calls + [c], cs, top - 1, bottom, target, next);
      FinallyEmitted(calls, c, rest, cs, top, bottom, target);
    } else {
      var c, d, rest := Emit(JmpScopes(n, next)), Place(next), UnwindCalls(cs, top - n, bottom, target, next + 1);
      assert calls + ([c, d] + rest) == ((calls + [c]) + [d]) + rest;
      StillForward(calls, c, target);
      StillForward(calls + [c], d, target);
      UnwindEmitted((calls + [c]) + [d], cs, top - n, bottom, target, next + 1);
      NormalsEmitted(calls, c, d, rest, cs, top, bottom, target, next);
    }
  }

  lemma FinallyEmitted(calls: seq<Call>, c: Call, rest: seq<Call>, cs: seq<Context>, top: nat, bottom: nat, target: Label)
    requires bottom < top <= |cs| && cs[top - 1].Finally? && c == Emit(Jsr(cs[top - 1].ret, cs[top - 1].addr))
    requires Legal((calls + [c]) + rest)
    requires UnwindAt(Fused((calls + [c]) + rest).program, |Fused(calls + [c]).program.ins|, cs, top - 1, bottom, target)
    ensures UnwindAt(Fused((calls + [c]) + rest).program, |Fused(calls).program.ins|, cs, top, bottom, target)
  {
    hide Legal, Fused, UnwindAt;
    OneMore(calls, c);
    EmittedJumpStays(calls + [c], rest);
    AtFinally(Fused((calls + [c]) + rest).program, |Fused(calls).program.ins|, cs, top, bottom, target);
  }

  lemma NormalsEmitted(calls: seq<Call>, c: Call, d: Call, rest: seq<Call>, cs: seq<Context>, top: nat, bottom: nat, target: Label, next: Label)
    requires bottom < top <= |cs| && 0 < Normals(cs, top, bottom) < top - bottom
    requires c == Emit(JmpScopes(Normals(cs, top, bottom), next)) && d == Place(next)
    requires Legal(((calls + [c]) + [d]) + rest)
    requires UnwindAt(Fused(((calls + [c]) + [d]) + rest).program, |Fused((calls + [c]) + [d]).program.ins|, cs, top - Normals(cs, top, bottom), bottom, target)
    ensures UnwindAt(Fused(((calls + [c]) + [d]) + rest).program, |Fused(calls).program.ins|, cs, top, bottom, target)
  {
    hide Legal, Fused, UnwindAt;
    OneMore(calls, c);
    OneMore(calls + [c], d);
    EmittedJumpStays((calls + [c]) + [d], rest);
    AtNormals(Fused(((calls + [c]) + [d]) + rest).program, |Fused(calls).program.ins|, cs, top, bottom, target);
  }

  lemma StillForward(calls: seq<Call>, c: Call, target: Label)
    requires target !in Fused(calls).program.loc && (c.Emit? || (c.Place? && c.l != target))
    ensures target !in Fused(calls + [c]).program.loc
  {
    hide Fused;
    OneMore(calls, c);
  }

  lemma AtLast(p: Program, a: nat, cs: seq<Context>, top: nat, bottom: nat, target: Label)
    requires bottom <= top <= |cs| && a < |p.ins| && Normals(cs, top, bottom) == top - bottom
    requires p.ins[a] == if top == bottom then Jmp(target) else JmpScopes(top - bottom, target)
    ensures UnwindAt(p, a, cs, top, bottom, target)
  {
  }

  lemma AtFinally(p: Program, a: nat, cs: seq<Context>, top: nat, bottom: nat, target: Label)
    requires bottom < top <= |cs| && a < |p.ins| && cs[top - 1].Finally?
    requires p.ins[a] == Jsr(cs[top - 1].ret, cs[top - 1].addr) && UnwindAt(p, a + 1, cs, top - 1, bottom, target)
    ensures UnwindAt(p, a, cs, top, bottom, target)
  {
  }

  lemma AtNormals(p: Program, a: nat, cs: seq<Context>, top: nat, bottom: nat, target: Label)
    requires bottom < top <= |cs| && a < |p.ins|
    requires var n := Normals(cs, top, bottom);
      && 0 < n < top - bottom && p.ins[a].JmpScopes? && p.ins[a].count == n
      && p.ins[a].target >= 0 && p.ins[a].target in p.loc && p.loc[p.ins[a].target] == a + 1
      && UnwindAt(p, a + 1, cs, top - n, bottom, target)
    ensures UnwindAt(p, a, cs, top, bottom, target)
  {
  }

  /** A jump at the end of the program is never rewound. */
  lemma EmittedJumpStays(calls: seq<Call>, rest: seq<Call>)
    requires Legal(calls + rest) && |Fused(calls).program.ins| > 0
    requires var last := Fused(calls).program.ins[|Fused(calls).program.ins| - 1]; last.Jsr? || last.JmpScopes?
    ensures var p, q := Fused(calls).program, Fused(calls + rest).program;
      && |p.ins| <= |q.ins| && q.ins[|p.ins| - 1] == p.ins[|p.ins| - 1]
      && forall l | l in p.loc :: l in q.loc && q.loc[l] == p.loc[l]
  {
    CallsGrow(calls, rest);
  }

  /** The calls made here never fuse. */
  lemma OneMore(calls: seq<Call>, c: Call)
    requires c.Emit? || c.Place? || c.Jump?
    ensures var p, q := Fused(calls).program, Fused(calls + [c]).program;
      if c.Place? then q == p.(loc := p.loc[c.l := |p.ins|])
      else q == p.(ins := p.ins + [PlainJump(c, p.loc)])
  {
    assert (calls + [c])[..|calls|] == calls;
  }

  // --------------------------------------------------------------- its run

  /** The executions of the given finally blocks, in order. */
  function Entered(log: seq<Event>, rets: set<Reg>): seq<Event> {
    if log == [] then []
    else
      var e := log[|log| - 1];
      Entered(log[..|log| - 1], rets) + if e.Subroutine? && e.ret in rets then [e] else []
  }

  lemma EnteredOne(log: seq<Event>, e: Event, rets: set<Reg>)
    ensures Entered(log + [e], rets) == Entered(log, rets) + if e.Subroutine? && e.ret in rets then [e] else []
  {
    assert (log + [e])[..|log|] == log;
  }

  /** Every finally block from the innermost out, each once, at the depth it was pushed at. */
  function Expected(cs: seq<Context>, top: nat, bottom: nat, base: nat): seq<Event>
    requires bottom <= top <= |cs|
  {
    if top == bottom then []
    else if cs[top - 1].Scope? then Expected(cs, top - 1, bottom, base)
    else [Subroutine(cs[top - 1].ret, base + Depth(cs, top - 1))] + Expected(cs, top - 1, bottom, base)
  }

  function Rets(cs: seq<Context>): set<Reg> {
    set k | 0 <= k < |cs| && cs[k].Finally? :: cs[k].ret
  }

  /** A finally block entered with a return address comes back to it, with the scopes it
      was entered with and without running an enclosing finally block. */
  ghost predicate Returns(rt: Runtime, engine: Engine, p: Program, rets: set<Reg>, s: State, q: nat, n: nat) {
    var t := Run(rt, engine, p, s, n);
    !t.halted && t.pc == q && t.scopes == s.scopes && Entered(t.log, rets) == Entered(s.log, rets)
  }

  /** The run is at the start of a finally block, having been called. */
  predicate AtFinallyBlock(p: Program, c: Context, s: State) {
    && c.Finally? && c.addr in p.loc && s.pc == p.loc[c.addr] && !s.halted
    && ReadCell(s.regs, c.ret).RetAddr?
  }

  ghost predicate BlockReturns(rt: Runtime, engine: Engine, p: Program, rets: set<Reg>, c: Context, s: State) {
    AtFinallyBlock(p, c, s) ==> exists n: nat :: Returns(rt, engine, p, rets, s, ReadCell(s.regs, c.ret).pc, n)
  }

  ghost predicate AllReturn(rt: Runtime, engine: Engine, p: Program, cs: seq<Context>, s: State) {
    forall k: nat, j: nat | k < |cs| :: BlockReturns(rt, engine, p, Rets(cs), cs[k], Run(rt, engine, p, s, j))
  }

  /** The run from `s` has not arrived after `j` steps. */
  ghost predicate OnTheWay(rt: Runtime, engine: Engine, p: Program, cs: seq<Context>, top: nat, bottom: nat, base: nat, target: Label, s: State, j: nat)
    requires bottom <= top <= |cs|
  {
    forall i: nat | i <= j :: !Unwound(p, cs, top, bottom, base, target, s, Run(rt, engine, p, s, i))
  }

  /** Each time the run from `s` enters a finally block before it has arrived, the block
      returns. */
  ghost predicate SubroutinesReturn(rt: Runtime, engine: Engine, p: Program, cs: seq<Context>, top: nat, bottom: nat, base: nat, target: Label, s: State)
    requires bottom <= top <= |cs|
  {
    forall k: nat, j: nat | k < |cs| && OnTheWay(rt, engine, p, cs, top, bottom, base, target, s, j) ::
      BlockReturns(rt, engine, p, Rets(cs), cs[k], Run(rt, engine, p, s, j))
  }

  /** What holds of a run holds of the rest of it. */
  lemma ReturnLater(rt: Runtime, engine: Engine, p: Program, cs: seq<Context>, s: State, m: nat)
    requires AllReturn(rt, engine, p, cs, s)
    ensures AllReturn(rt, engine, p, cs, Run(rt, engine, p, s, m))
  {
    hide BlockReturns, Run;
    var t := Run(rt, engine, p, s, m);
    forall k: nat, j: nat | k < |cs| ensures BlockReturns(rt, engine, p, Rets(cs), cs[k], Run(rt, engine, p, t, j)) {
      RunAdd(rt, engine, p, s, m, j);
      assert BlockReturns(rt, engine, p, Rets(cs), cs[k], Run(rt, engine, p, s, m + j));
    }
  }

  /** `t` is at the target, with the scopes above it gone and the finally blocks run. */
  ghost predicate Unwound(p: Program, cs: seq<Context>, top: nat, bottom: nat, base: nat, target: Label, s: State, t: State)
    requires bottom <= top <= |cs|
  {
    && !t.halted && target in p.loc && t.pc == p.loc[target]
    && Depth(cs, bottom) <= Depth(cs, top)
    && t.scopes == DropScopes(s.scopes, Depth(cs, top) - Depth(cs, bottom))
    && Entered(t.log, Rets(cs)) == Entered(s.log, Rets(cs)) + Expected(cs, top, bottom, base)
  }

  lemma {:induction false} DepthOfNormals(cs: seq<Context>, top: nat, n: nat)
    requires n <= top <= |cs| && forall k | top - n <= k < top :: cs[k].Scope?
    ensures Depth(cs, top) == Depth(cs, top - n) + n
  {
    if n > 0 { DepthOfNormals(cs, top - 1, n - 1); }
  }

  lemma {:induction false} DepthMonotone(cs: seq<Context>, bottom: nat, top: nat)
    requires bottom <= top <= |cs|
    ensures Depth(cs, bottom) <= Depth(cs, top)
  {
    if bottom < top { DepthMonotone(cs, bottom, top - 1); }
  }

  lemma {:induction false} ExpectedSkipsNormals(cs: seq<Context>, top: nat, bottom: nat, base: nat, n: nat)
    requires bottom <= top - n && n <= top <= |cs| && forall k | top - n <= k < top :: cs[k].Scope?
    ensures Expected(cs, top, bottom, base) == Expected(cs, top - n, bottom, base)
  {
    if n > 0 { ExpectedSkipsNormals(cs, top - 1, bottom, base, n - 1); }
  }

  lemma JsrEnters(rt: Runtime, engine: Engine, p: Program, s: State)
    requires Closed(p) && s.pc < |p.ins| && p.ins[s.pc].Jsr? && !s.halted
    ensures var c, t := p.ins[s.pc], Step(rt, engine, p, s);
      && !t.halted && t.pc == p.loc[c.target] && t.scopes == s.scopes
      && t.log == s.log + [Subroutine(c.ret, |s.scopes|)] && ReadCell(t.regs, c.ret) == RetAddr(s.pc + 1)
  {
  }

  lemma JmpScopesPops(rt: Runtime, engine: Engine, p: Program, s: State)
    requires Closed(p) && s.pc < |p.ins| && p.ins[s.pc].JmpScopes? && !s.halted
    ensures p.ins[s.pc].target in p.loc
    ensures Step(rt, engine, p, s) == s.(pc := p.loc[p.ins[s.pc].target], scopes := DropScopes(s.scopes, p.ins[s.pc].count))
  {
  }

  lemma JmpGoes(rt: Runtime, engine: Engine, p: Program, s: State)
    requires Closed(p) && s.pc < |p.ins| && p.ins[s.pc].Jmp? && !s.halted
    ensures p.ins[s.pc].target in p.loc && Step(rt, engine, p, s) == s.(pc := p.loc[p.ins[s.pc].target])
  {
  }

  /** Running the unwinding code. */
  lemma UnwindRuns(rt: Runtime, engine: Engine, p: Program, a: nat, cs: seq<Context>, top: nat, bottom: nat,
                   base: nat, target: Label, s: State) returns (n: nat)
    requires bottom <= top <= |cs| && UnwindAt(p, a, cs, top, bottom, target)
    requires Closed(p) && SubroutinesReturn(rt, engine, p, cs, top, bottom, base, target, s)
    requires s.pc == a && !s.halted && |s.scopes| == base + Depth(cs, top)
    ensures Unwound(p, cs, top, bottom, base, target, s, Run(rt, engine, p, s, n))
  {
    hide Step, Run, BlockReturns, Unwound, Depth, Closed, UnwindAt;
    if m: nat :| Unwound(p, cs, top, bottom, base, target, s, Run(rt, engine, p, s, m)) {
      n := m;
    } else {
      // It never arrives, so every block it enters returns, so it arrives.
      forall k: nat, j: nat | k < |cs| ensures BlockReturns(rt, engine, p, Rets(cs), cs[k], Run(rt, engine, p, s, j)) {
        assert OnTheWay(rt, engine, p, cs, top, bottom, base, target, s, j);
      }
      n := UnwindReturning(rt, engine, p, a, cs, top, bottom, base, target, s);
    }
  }

  /** How unwinding code begins. */
  lemma UnwindHead(p: Program, a: nat, cs: seq<Context>, top: nat, bottom: nat, target: Label)
    requires bottom <= top <= |cs| && UnwindAt(p, a, cs, top, bottom, target)
    ensures var n := Normals(cs, top, bottom);
      && a < |p.ins|
      && (top == bottom ==> p.ins[a] == Jmp(target))
      && (top > bottom && n == 0 ==>
            cs[top - 1].Finally? && p.ins[a] == Jsr(cs[top - 1].ret, cs[top - 1].addr) && UnwindAt(p, a + 1, cs, top - 1, bottom, target))
      && (n > 0 && top - n == bottom ==> p.ins[a] == JmpScopes(n, target))
      && (n > 0 && top - n > bottom ==>
            && p.ins[a].JmpScopes? && p.ins[a].count == n
            && p.ins[a].target >= 0 && p.ins[a].target in p.loc && p.loc[p.ins[a].target] == a + 1
            && UnwindAt(p, a + 1, cs, top - n, bottom, target))
  {
  }

  lemma {:induction false} UnwindReturning(rt: Runtime, engine: Engine, p: Program, a: nat, cs: seq<Context>, top: nat, bottom: nat,
                                           base: nat, target: Label, s: State) returns (n: nat)
    requires bottom <= top <= |cs| && UnwindAt(p, a, cs, top, bottom, target)
    requires Closed(p) && AllReturn(rt, engine, p, cs, s)
    requires s.pc == a && !s.halted && |s.scopes| == base + Depth(cs, top)
    ensures Unwound(p, cs, top, bottom, base, target, s, Run(rt, engine, p, s, n))
    decreases top
  {
    hide Step, Run, BlockReturns, Unwound, Depth, Closed, UnwindAt, Normals, Rets, Entered;
    RunOne(rt, engine, p, s);
    UnwindHead(p, a, cs, top, bottom, target);
    var k := Normals(cs, top, bottom);
    if top == bottom {
      n := 1;
      JmpGoes(rt, engine, p, s);
      JoinNormals(p, cs, top, bottom, base, target, 0, s, Step(rt, engine, p, s), Step(rt, engine, p, s));
    } else if k == 0 {
      assert BlockReturns(rt, engine, p, Rets(cs), cs[top - 1], Run(rt, engine, p, s, 1));
      var m := FinallyRuns(rt, engine, p, cs, top - 1, s);
      var u := Run(rt, engine, p, s, m);
      DepthOfFinally(cs, top);
      ReturnLater(rt, engine, p, cs, s, m);
      var n' := UnwindReturning(rt, engine, p, a + 1, cs, top - 1, bottom, base, target, u);
      n := m + n';
      RunAdd(rt, engine, p, s, m, n');
      JoinFinally(p, cs, top, bottom, base, target, s, u, Run(rt, engine, p, s, n));
    } else {
      var u := Step(rt, engine, p, s);
      JmpScopesPops(rt, engine, p, s);
      DepthOfNormals(cs, top, k);
      if top - k == bottom {
        n := 1;
        JoinNormals(p, cs, top, bottom, base, target, k, s, u, u);
      } else {
        ReturnLater(rt, engine, p, cs, s, 1);
        var n' := UnwindReturning(rt, engine, p, a + 1, cs, top - k, bottom, base, target, u);
        n := 1 + n';
        RunAdd(rt, engine, p, s, 1, n');
        JoinNormals(p, cs, top, bottom, base, target, k, s, u, Run(rt, engine, p, s, n));
      }
    }
  }

  lemma DepthOfFinally(cs: seq<Context>, top: nat)
    requires 0 < top <= |cs| && cs[top - 1].Finally?
    ensures Depth(cs, top) == Depth(cs, top - 1)
  {
  }

  /** Popping `k` scopes first. */
  lemma JoinNormals(p: Program, cs: seq<Context>, top: nat, bottom: nat, base: nat, target: Label, k: nat, s: State, u: State, t: State)
    requires bottom <= top - k && k <= top <= |cs| && forall j | top - k <= j < top :: cs[j].Scope?
    requires u.scopes == DropScopes(s.scopes, k) && u.log == s.log && |s.scopes| == base + Depth(cs, top)
    requires if top - k == bottom then u == t && !t.halted && target in p.loc && t.pc == p.loc[target]
             else Unwound(p, cs, top - k, bottom, base, target, u, t)
    ensures Unwound(p, cs, top, bottom, base, target, s, t)
  {
    DepthOfNormals(cs, top, k);
    DepthMonotone(cs, bottom, top - k);
    ExpectedSkipsNormals(cs, top, bottom, base, k);
  }

  /** Running a finally block first. */
  lemma JoinFinally(p: Program, cs: seq<Context>, top: nat, bottom: nat, base: nat, target: Label, s: State, u: State, t: State)
    requires bottom < top <= |cs| && cs[top - 1].Finally?
    requires u.scopes == s.scopes && |s.scopes| == base + Depth(cs, top)
    requires Entered(u.log, Rets(cs)) == Entered(s.log, Rets(cs)) + [Subroutine(cs[top - 1].ret, |s.scopes|)]
    requires Unwound(p, cs, top - 1, bottom, base, target, u, t)
    ensures Unwound(p, cs, top, bottom, base, target, s, t)
  {
    hide Entered;
    DepthOfFinally(cs, top);
  }

  /** A jsr to the finally block of context `k` runs it and comes back. */
  lemma FinallyRuns(rt: Runtime, engine: Engine, p: Program, cs: seq<Context>, k: nat, s: State) returns (m: nat)
    requires k < |cs| && cs[k].Finally?
    requires Closed(p) && BlockReturns(rt, engine, p, Rets(cs), cs[k], Step(rt, engine, p, s))
    requires s.pc < |p.ins| && p.ins[s.pc] == Jsr(cs[k].ret, cs[k].addr) && !s.halted
    ensures var u := Run(rt, engine, p, s, m);
      && !u.halted && u.pc == s.pc + 1 && u.scopes == s.scopes
      && Entered(u.log, Rets(cs)) == Entered(s.log, Rets(cs)) + [Subroutine(cs[k].ret, |s.scopes|)]
  {
    hide Step, Entered;
    RunOne(rt, engine, p, s);
    JsrEnters(rt, engine, p, s);
    var t := Step(rt, engine, p, s);
    EnteredOne(s.log, Subroutine(cs[k].ret, |s.scopes|), Rets(cs));
    var m' : nat :| Returns(rt, engine, p, Rets(cs), t, ReadCell(t.regs, cs[k].ret).pc, m');
    m := 1 + m';
    RunAdd(rt, engine, p, s, 1, m');
  }

  lemma RunOne(rt: Runtime, engine: Engine, p: Program, s: State)
    ensures Run(rt, engine, p, s, 1) == Step(rt, engine, p, s)
  {
    hide Step;
    assert Run(rt, engine, p, s, 0) == s;
  }
}
