/** What the emitted words do, compared with one instruction per call. */
module Correctness {
  import opened Bytecode
  import opened Relate
  import opened Peephole
  import opened PeepholeMeaning
  import opened Layout
  import opened Stream
  import opened Unwind

  /** Every label is placed; conditions consumed by a jump are dead after it. */
  ghost predicate Finished(calls: seq<Call>, dead: seq<set<Reg>>) {
    var u := Unfused(calls);
    Closed(u) && DeadNotRead(u, dead) && ConditionsDead(u, Matching(calls).pairs, dead)
  }

  /** The word machine at `t'` and the unfused program at `t` agree: on everything
      observed, on the scopes, and on every register that may still be read. */
  ghost predicate Agree(calls: seq<Call>, dead: seq<set<Reg>>, t: State, t': State) {
    && t'.log == t.log && t'.scopes == t.scopes && t'.halted == t.halted
    && t.pc < |dead|
    && (forall r | r !in dead[t.pc] :: Read(t'.regs, r) == Read(t.regs, r))
    && t.pc < |Matching(calls).pos| && Matching(calls).pos[t.pc] <= |Fused(calls).program.ins|
    && t'.pc == Offset(Fused(calls).program.ins, Matching(calls).pos[t.pc])
  }

  /** A state the generated code can be entered in. */
  predicate Entry(s: State) {
    s.pc == 0 && !s.halted && forall r | r in s.regs :: s.regs[r].Val?
  }

  lemma FinishedSetting(calls: seq<Call>, dead: seq<set<Reg>>)
    requires Legal(calls) && Finished(calls, dead)
    ensures Setting(Unfused(calls), Fused(calls).program, Matching(calls), dead)
    ensures |Matching(calls).pos| == |Unfused(calls).ins| + 1 == |dead|
  {
    hide Closed, Unfused, Fused, Matching, ConditionsDead, SameEnd;
    FusedCorresponds(calls);
  }

  lemma {:induction false} MatchingStarts(calls: seq<Call>)
    ensures |Matching(calls).pos| > 0 && Matching(calls).pos[0] == 0
  {
    if calls != [] { MatchingStarts(calls[..|calls| - 1]); }
  }

  /** The two machines start in step. */
  lemma EntryInStep(calls: seq<Call>, dead: seq<set<Reg>>, s: State)
    requires Legal(calls) && Finished(calls, dead) && Entry(s)
    ensures |Matching(calls).pos| == |Unfused(calls).ins| + 1 == |dead|
    ensures InStep(Unfused(calls), Matching(calls), dead, s, s)
    ensures AtOffset(Fused(calls).program, s, s)
  {
    hide Unfused, Fused, Matching, Finished;
    FinishedSetting(calls, dead);
    MatchingStarts(calls);
  }

  lemma FusedClosed(words: seq<Word>, views: seq<LabelView>, calls: seq<Call>)
    requires StreamTied(words, views, calls) && Closed(Unfused(calls))
    requires forall l | 0 <= l < |views| :: views[l].location.Some?
    ensures Closed(Fused(calls).program)
  {
    hide Encodes, Fused, Unfused, Legal;
    var p := Fused(calls).program;
    forall k | 0 <= k < |p.ins| && p.ins[k].Jumps() ensures p.ins[k].target >= 0 && p.ins[k].target in p.loc {
      var l := p.ins[k].target;
      TargetLocation(views, p, l);
    }
  }

  lemma StepsAgree(calls: seq<Call>, dead: seq<set<Reg>>, t: State, f: State, w: State)
    requires |Matching(calls).pos| == |Unfused(calls).ins| + 1 == |dead|
    requires InStep(Unfused(calls), Matching(calls), dead, t, f) && AtOffset(Fused(calls).program, f, w)
    ensures Agree(calls, dead, t, w)
  {
    hide Unfused, Fused, Matching, ReturnsValid;
    forall r | r !in dead[t.pc] ensures Read(w.regs, r) == Read(t.regs, r) {
      ReadsAgree(Matching(calls).pos, dead[t.pc], t, f, r);
      ReadsAgree(Offsets(Fused(calls).program.ins), {}, f, w, r);
    }
  }

  /** Whatever the words do, the unfused calls do. */
  lemma WordsMeanCalls(rt: Runtime, engine: Engine, words: seq<Word>, views: seq<LabelView>, calls: seq<Call>, dead: seq<set<Reg>>,
                       s: State, count: nat) returns (n: nat)
    requires StreamTied(words, views, calls) && Finished(calls, dead) && Entry(s)
    requires forall l | 0 <= l < |views| :: views[l].location.Some?
    requires NullTestsAgree(rt, engine, Fused(calls).program, s, count)
    ensures Agree(calls, dead, Run(rt, engine, Unfused(calls), s, n), RunWords(rt, engine, words, s, count))
  {
    hide Unfused, Fused, Matching, Setting, InStep, AtOffset, Agree, NullTestsAgree, Encodes, Entry;
    FinishedSetting(calls, dead);
    EntryInStep(calls, dead, s);
    FusedClosed(words, views, calls);
    n := FusedRunFollowed(rt, engine, Unfused(calls), Fused(calls).program, Matching(calls), dead, s, s, count);
    WordsRunLikeProgram(rt, engine, words, Fused(calls).program, s, s, count);
    StepsAgree(calls, dead, Run(rt, engine, Unfused(calls), s, n), Run(rt, engine, Fused(calls).program, s, count), RunWords(rt, engine, words, s, count));
  }

  /** Whatever the unfused calls do, the words do; between a comparison and the jump that
      absorbed it, the words are still before both. */
  lemma CallsMeanWords(rt: Runtime, engine: Engine, words: seq<Word>, views: seq<LabelView>, calls: seq<Call>, dead: seq<set<Reg>>,
                       s: State, count: nat) returns (n: nat)
    requires StreamTied(words, views, calls) && Finished(calls, dead) && Entry(s)
    requires forall l | 0 <= l < |views| :: views[l].location.Some?
    requires forall j: nat :: NullTestAgreesHere(engine, Fused(calls).program, Run(rt, engine, Fused(calls).program, s, j))
    ensures
      || Agree(calls, dead, Run(rt, engine, Unfused(calls), s, count), RunWords(rt, engine, words, s, n))
      || (count > 0 && Run(rt, engine, Unfused(calls), s, count - 1).pc in Matching(calls).pairs
          && Agree(calls, dead, Run(rt, engine, Unfused(calls), s, count - 1), RunWords(rt, engine, words, s, n)))
  {
    hide Unfused, Fused, Matching, Setting, InStep, AtOffset, Agree, NullTestAgreesHere, Encodes, Entry, Step;
    FinishedSetting(calls, dead);
    EntryInStep(calls, dead, s);
    FusedClosed(words, views, calls);
    n := UnfusedRunFollowed(rt, engine, Unfused(calls), Fused(calls).program, Matching(calls), dead, s, s, count);
    WordsRunLikeProgram(rt, engine, words, Fused(calls).program, s, s, n);
    var at := if InStep(Unfused(calls), Matching(calls), dead, Run(rt, engine, Unfused(calls), s, count), Run(rt, engine, Fused(calls).program, s, n)) then count else count - 1;
    StepsAgree(calls, dead, Run(rt, engine, Unfused(calls), s, at), Run(rt, engine, Fused(calls).program, s, n), RunWords(rt, engine, words, s, n));
  }

  /** The JIT needs no proviso about null tests. */
  lemma JitNullTestsAgree(rt: Runtime, f: Program, s: State, count: nat)
    ensures NullTestsAgree(rt, Jit, f, s, count)
  {
  }

  /** In the interpreter the proviso is needed: an object that masquerades as undefined
      equals null, yet the fused jump takes the way of an object that does not. */
  lemma InterpreterTellsMasquerading(rt: Runtime, next: nat, target: nat)
    requires next != target
    ensures var s := State(0, map[1 := Val(Object(0, true))], [], [], false);
      var first, second, jump := EqNull(0, 1), JFalse(0, 7), JNeqNull(1, 7);
      && Fusion(first, second, jump)
      && Exec(rt, Interpreter, second, next, target, Exec(rt, Interpreter, first, 1, 0, s)).pc == next
      && Exec(rt, Interpreter, jump, next, target, s).pc == target
  {
  }

  /** The unwinding code of a jump, wherever it was emitted and whatever was emitted since,
      leaves every context above `bottom` and arrives at its target. */
  lemma UnwindingRuns(rt: Runtime, engine: Engine, calls: seq<Call>, more: seq<Call>, cs: seq<Context>, top: nat, bottom: nat,
                      base: nat, target: Label, next: Label, s: State) returns (n: nat)
    requires bottom <= top <= |cs|
    requires Legal((calls + UnwindCalls(cs, top, bottom, target, next)) + more)
    requires target !in Fused(calls).program.loc && target < next
    requires var p := Fused((calls + UnwindCalls(cs, top, bottom, target, next)) + more).program;
      Closed(p) && SubroutinesReturn(rt, engine, p, cs, top, bottom, base, target, s)
    requires s.pc == |Fused(calls).program.ins| && !s.halted && |s.scopes| == base + Depth(cs, top)
    ensures var p := Fused((calls + UnwindCalls(cs, top, bottom, target, next)) + more).program;
      Unwound(p, cs, top, bottom, base, target, s, Run(rt, engine, p, s, n))
  {
    hide Legal, Fused, UnwindAt, UnwindCalls, Closed, SubroutinesReturn, Unwound, Run;
    var emitted := calls + UnwindCalls(cs, top, bottom, target, next);
    CallsGrow(emitted, more);
    UnwindEmitted(calls, cs, top, bottom, target, next);
    UnwindStays(Fused(emitted).program, Fused(emitted + more).program, s.pc, cs, top, bottom, target);
    n := UnwindRuns(rt, engine, Fused(emitted + more).program, s.pc, cs, top, bottom, base, target, s);
  }

  /** So do its words. */
  lemma UnwindingWordsRun(rt: Runtime, engine: Engine, words: seq<Word>, views: seq<LabelView>, calls: seq<Call>, more: seq<Call>,
                          cs: seq<Context>, top: nat, bottom: nat, base: nat, target: Label, next: Label, s: State, s': State) returns (n: nat)
    requires bottom <= top <= |cs|
    requires StreamTied(words, views, (calls + UnwindCalls(cs, top, bottom, target, next)) + more)
    requires target !in Fused(calls).program.loc && target < next && target < |views|
    requires var p := Fused((calls + UnwindCalls(cs, top, bottom, target, next)) + more).program;
      Closed(p) && SubroutinesReturn(rt, engine, p, cs, top, bottom, base, target, s) && AtOffset(p, s, s')
    requires s.pc == |Fused(calls).program.ins| && !s.halted && |s.scopes| == base + Depth(cs, top)
    ensures var t' := RunWords(rt, engine, words, s', n);
      && !t'.halted && views[target].location == Some(t'.pc)
      && Depth(cs, bottom) <= Depth(cs, top) && t'.scopes == DropScopes(s'.scopes, Depth(cs, top) - Depth(cs, bottom))
      && Entered(t'.log, Rets(cs)) == Entered(s'.log, Rets(cs)) + Expected(cs, top, bottom, base)
  {
    hide Legal, Fused, Unfused, UnwindCalls, Closed, SubroutinesReturn, Run, Encodes, Entered, Expected, Depth;
    var all := (calls + UnwindCalls(cs, top, bottom, target, next)) + more;
    var p := Fused(all).program;
    n := UnwindingRuns(rt, engine, calls, more, cs, top, bottom, base, target, next, s);
    WordsRunLikeProgram(rt, engine, words, p, s, s', n);
    TargetLocation(views, p, target);
  }
}
