/** The peephole optimisation of conditional jumps as a map between programs.

    A list of calls on the generator has two meanings: `Unfused`, one instruction per
    call, and `Fused`, what the generator keeps after rewinding a comparison into the
    jump that follows it.
 */
module Peephole {
  import opened Bytecode

  /** `free` says that the condition is a temporary nobody references. */
  datatype Call =
    | Emit(i: Ins)
    | Place(l: Label)
    | Jump(l: Label)
    | JumpIfTrue(cond: Reg, free: bool, l: Label)
    | JumpIfFalse(cond: Reg, free: bool, l: Label)

  /** The caller's obligations: a label is placed once, and `JumpIfFalse` goes forward. */
  predicate Allowed(loc: map<Label, nat>, c: Call) {
    match c
    case Emit(i) => !i.Jumps() || ((i.NextName? || i.JmpScopes? || i.Jsr?) && i.target >= 0)
    case Place(l) => l !in loc
    case Jump(_) => true
    case JumpIfTrue(_, _, _) => true
    case JumpIfFalse(_, _, l) => l !in loc
  }

  /** The jump `JumpIfTrue` makes of `i`, when it can absorb it. */
  function FuseTrue(i: Ins, cond: Reg, free: bool, backward: bool, l: Label): Option<Ins> {
    match i
    case Less(d, a, b) => if backward && d == cond && free then Some(LoopIfLess(a, b, l)) else None
    case LessEq(d, a, b) => if backward && d == cond && free then Some(LoopIfLessEq(a, b, l)) else None
    case EqNull(d, s) => if !backward && d == cond && free then Some(JEqNull(s, l)) else None
    case NeqNull(d, s) => if !backward && d == cond && free then Some(JNeqNull(s, l)) else None
    case _ => None
  }

  function FuseFalse(i: Ins, cond: Reg, free: bool, l: Label): Option<Ins> {
    match i
    case Less(d, a, b) => if d == cond && free then Some(JNLess(a, b, l)) else None
    case Not(d, s) => if d == cond && free then Some(JTrue(s, l)) else None
    case EqNull(d, s) => if d == cond && free then Some(JNeqNull(s, l)) else None
    case NeqNull(d, s) => if d == cond && free then Some(JEqNull(s, l)) else None
    case _ => None
  }

  /** The jump a call adds when nothing is fused. */
  function PlainJump(c: Call, loc: map<Label, nat>): Ins
    requires !c.Place?
  {
    match c
    case Emit(i) => i
    case Jump(l) => if l in loc then Loop(l) else Jmp(l)
    case JumpIfTrue(cond, _, l) => if l in loc then LoopIfTrue(cond, l) else JTrue(cond, l)
    case JumpIfFalse(cond, _, l) => JFalse(cond, l)
  }

  function TryFuse(last: Ins, c: Call, loc: map<Label, nat>): Option<Ins> {
    match c
    case JumpIfTrue(cond, free, l) => FuseTrue(last, cond, free, l in loc, l)
    case JumpIfFalse(cond, free, l) => FuseFalse(last, cond, free, l)
    case _ => None
  }

  function ExtendPlain(p: Program, c: Call): Program {
    match c
    case Place(l) => p.(loc := p.loc[l := |p.ins|])
    case _ => p.(ins := p.ins + [PlainJump(c, p.loc)])
  }

  function Unfused(calls: seq<Call>): Program {
    if calls == [] then Program([], map[])
    else ExtendPlain(Unfused(calls[..|calls| - 1]), calls[|calls| - 1])
  }

  /** `tight`: no label has been placed since the last instruction (m_lastOpcodeID). */
  datatype Output = Output(program: Program, tight: bool)

  function Extend(o: Output, c: Call): Output {
    var p := o.program;
    match c
    case Place(l) => Output(p.(loc := p.loc[l := |p.ins|]), false)
    case _ =>
      var fused := if o.tight && |p.ins| > 0 then TryFuse(p.ins[|p.ins| - 1], c, p.loc) else None;
      if fused.Some?
      then Output(p.(ins := p.ins[..|p.ins| - 1] + [fused.value]), true)
      else Output(p.(ins := p.ins + [PlainJump(c, p.loc)]), true)
  }

  function Fused(calls: seq<Call>): Output {
    if calls == [] then Output(Program([], map[]), false)
    else Extend(Fused(calls[..|calls| - 1]), calls[|calls| - 1])
  }

  ghost predicate Legal(calls: seq<Call>) {
    calls == [] ||
    (Legal(calls[..|calls| - 1]) && Allowed(Unfused(calls[..|calls| - 1]).loc, calls[|calls| - 1]))
  }

  // -------------------------------------------- the two programs compared

  /** `pos[k]` is where unfused instruction k went; `pairs` holds the index of each
      comparison that was absorbed by the jump after it. */
  datatype Match = Match(pos: seq<nat>, pairs: set<nat>)

  function ExtendMatch(m: Match, u: Program, o: Output, c: Call): Match {
    if c.Place? then m
    else
      var length := |Extend(o, c).program.ins|;
      Match(m.pos + [length],
            if length == |o.program.ins| && |u.ins| > 0 then m.pairs + {|u.ins| - 1} else m.pairs)
  }

  function Matching(calls: seq<Call>): Match {
    if calls == [] then Match([0], {})
    else
      var prefix := calls[..|calls| - 1];
      ExtendMatch(Matching(prefix), Unfused(prefix), Fused(prefix), calls[|calls| - 1])
  }

  predicate Fusion(first: Ins, second: Ins, jump: Ins) {
    match second
    case JTrue(c, l) => l >= 0 && FuseTrue(first, c, true, false, l) == Some(jump)
    case LoopIfTrue(c, l) => l >= 0 && FuseTrue(first, c, true, true, l) == Some(jump)
    case JFalse(c, l) => l >= 0 && FuseFalse(first, c, true, l) == Some(jump)
    case _ => false
  }

  /** `k` is not the second half of a fused pair. */
  predicate Boundary(pairs: set<nat>, k: nat) {
    k == 0 || k - 1 !in pairs
  }

  /** How instruction `k` of the unfused program appears in the fused one. */
  ghost predicate Placed(u: Program, f: Program, m: Match, k: nat)
    requires k < |u.ins| && |m.pos| == |u.ins| + 1
  {
    Boundary(m.pairs, k) ==>
      && m.pos[k] < |f.ins|
      && if k in m.pairs then
           && k + 1 < |u.ins|
           && k + 1 !in m.pairs
           && m.pos[k + 2] == m.pos[k] + 1
           && Fusion(u.ins[k], u.ins[k + 1], f.ins[m.pos[k]])
         else
           && m.pos[k + 1] == m.pos[k] + 1
           && f.ins[m.pos[k]] == u.ins[k]
  }

  ghost predicate Corresponds(u: Program, f: Program, m: Match) {
    && |m.pos| == |u.ins| + 1
    && m.pos[|u.ins|] == |f.ins|
    && (forall k :: k in m.pairs ==> k + 1 < |u.ins| && k + 1 !in m.pairs)
    && (forall k | 0 <= k < |u.ins| :: Placed(u, f, m, k))
    && (forall j, k | 0 <= k < j <= |u.ins| && Boundary(m.pairs, k) :: m.pos[k] < m.pos[j])
    && u.loc.Keys == f.loc.Keys
    && (forall l | l in u.loc ::
          u.loc[l] <= |u.ins| && Boundary(m.pairs, u.loc[l]) && f.loc[l] == m.pos[u.loc[l]])
  }

  /** While no label intervenes, the two programs end with the same absorbable instruction. */
  ghost predicate SameEnd(u: Program, o: Output) {
    o.tight ==>
      && |u.ins| > 0 && |o.program.ins| > 0
      && (forall l | l in u.loc :: u.loc[l] < |u.ins|)
      && (o.program.ins[|o.program.ins| - 1].Absorbable() ==> u.ins[|u.ins| - 1] == o.program.ins[|o.program.ins| - 1])
  }

  lemma ExtendCorresponds(u: Program, o: Output, m: Match, c: Call)
    requires Corresponds(u, o.program, m) && SameEnd(u, o) && Allowed(u.loc, c)
    ensures Corresponds(ExtendPlain(u, c), Extend(o, c).program, ExtendMatch(m, u, o, c))
    ensures SameEnd(ExtendPlain(u, c), Extend(o, c))
  {
    if c.Place? {
      PlaceCorresponds(u, o, m, c);
    } else if |Extend(o, c).program.ins| == |o.program.ins| {
      AbsorbCorresponds(u, o, m, c);
    } else {
      AppendCorresponds(u, o, m, c);
    }
  }

  lemma PlaceCorresponds(u: Program, o: Output, m: Match, c: Call)
    requires Corresponds(u, o.program, m) && SameEnd(u, o) && Allowed(u.loc, c) && c.Place?
    ensures Corresponds(ExtendPlain(u, c), Extend(o, c).program, ExtendMatch(m, u, o, c))
    ensures SameEnd(ExtendPlain(u, c), Extend(o, c))
  {
    hide Fusion;
    var u', f' := ExtendPlain(u, c), Extend(o, c).program;
    forall k | 0 <= k < |u'.ins| ensures Placed(u', f', m, k) {
      assert Placed(u, o.program, m, k);
    }
  }

  lemma AppendCorresponds(u: Program, o: Output, m: Match, c: Call)
    requires Corresponds(u, o.program, m) && SameEnd(u, o) && Allowed(u.loc, c) && !c.Place?
    requires |Extend(o, c).program.ins| != |o.program.ins|
    ensures Corresponds(ExtendPlain(u, c), Extend(o, c).program, ExtendMatch(m, u, o, c))
    ensures SameEnd(ExtendPlain(u, c), Extend(o, c))
  {
    hide Corresponds, Placed, Fusion, TryFuse;
    SameLabels(u, o.program, m);
    var i := PlainJump(c, u.loc);
    assert i == PlainJump(c, o.program.loc);
    AppendedOne(u, o.program, m, i);
  }

  lemma SameLabels(u: Program, f: Program, m: Match)
    requires Corresponds(u, f, m)
    ensures forall l :: l in u.loc <==> l in f.loc
    ensures forall l | l in u.loc :: u.loc[l] <= |u.ins|
  {
    assert u.loc.Keys == f.loc.Keys;
    forall l ensures l in u.loc <==> l in f.loc {
      assert l in u.loc.Keys <==> l in f.loc.Keys;
    }
  }

  lemma AppendedOne(u: Program, f: Program, m: Match, i: Ins)
    requires Corresponds(u, f, m)
    ensures Corresponds(u.(ins := u.ins + [i]), f.(ins := f.ins + [i]), Match(m.pos + [|f.ins| + 1], m.pairs))
  {
    hide Fusion;
    var u', f', m' := u.(ins := u.ins + [i]), f.(ins := f.ins + [i]), Match(m.pos + [|f.ins| + 1], m.pairs);
    forall k | 0 <= k < |u'.ins| ensures Placed(u', f', m', k) {
      if k < |u.ins| { assert Placed(u, f, m, k); }
    }
    forall j, k | 0 <= k < j <= |u'.ins| && Boundary(m'.pairs, k) ensures m'.pos[k] < m'.pos[j] {
      if k < |u.ins| { assert Placed(u, f, m, k); }
    }
  }

  lemma AbsorbCorresponds(u: Program, o: Output, m: Match, c: Call)
    requires Corresponds(u, o.program, m) && SameEnd(u, o) && Allowed(u.loc, c) && !c.Place?
    requires |Extend(o, c).program.ins| == |o.program.ins|
    ensures Corresponds(ExtendPlain(u, c), Extend(o, c).program, ExtendMatch(m, u, o, c))
    ensures SameEnd(ExtendPlain(u, c), Extend(o, c))
  {
    var u', f', m', n := ExtendPlain(u, c), Extend(o, c).program, ExtendMatch(m, u, o, c), |u.ins|;
    AbsorbedEnd(u, o, m, c);
    var jump := f'.ins[|f'.ins| - 1];
    assert !jump.Absorbable();
    assert u'.ins == u.ins + [PlainJump(c, u.loc)] && f'.ins == o.program.ins[..|f'.ins| - 1] + [jump];
    assert Extend(o, c).tight && u'.loc == u.loc && f'.loc == o.program.loc;
    hide Fusion, Extend, ExtendPlain, PlainJump, Placed, Corresponds;
    assert m'.pos == m.pos + [|f'.ins|] && m'.pairs == m.pairs + {n - 1};
    AbsorbedPair(u, o.program, m, u', f', m', PlainJump(c, u.loc), jump);
  }

  lemma AbsorbedPair(u: Program, f: Program, m: Match, u': Program, f': Program, m': Match, second: Ins, jump: Ins)
    requires Corresponds(u, f, m) && |u.ins| > 0 && |f.ins| > 0
    requires var n := |u.ins|;
      && Boundary(m.pairs, n - 1) && n - 1 !in m.pairs && m.pos[n - 1] == |f.ins| - 1
      && Fusion(u.ins[n - 1], second, jump) && (forall l | l in u.loc :: u.loc[l] < n)
      && m'.pos == m.pos + [|f'.ins|] && m'.pairs == m.pairs + {n - 1}
    requires u'.ins == u.ins + [second] && f'.ins == f.ins[..|f.ins| - 1] + [jump] && u'.loc == u.loc && f'.loc == f.loc
    ensures Corresponds(u', f', m')
  {
    hide Fusion, Placed;
    forall k | 0 <= k < |u.ins| + 1 ensures Placed(u', f', m', k) {
      AbsorbedPlaced(u, f, m, u', f', m', second, jump, k);
    }
    forall j, k | 0 <= k < j <= |u'.ins| && Boundary(m'.pairs, k) ensures m'.pos[k] < m'.pos[j] {
      if k < |u.ins| { PlacedBelow(u, f, m, k); }
    }
  }

  lemma PlacedBelow(u: Program, f: Program, m: Match, k: nat)
    requires Corresponds(u, f, m) && k < |u.ins| && Boundary(m.pairs, k)
    ensures m.pos[k] < |f.ins|
  {
    assert Placed(u, f, m, k);
  }

  lemma AbsorbedPlaced(u: Program, f: Program, m: Match, u': Program, f': Program, m': Match, second: Ins, jump: Ins, k: nat)
    requires Corresponds(u, f, m) && |u.ins| > 0 && |f.ins| > 0
    requires var n := |u.ins|;
      && Boundary(m.pairs, n - 1) && n - 1 !in m.pairs && m.pos[n - 1] == |f.ins| - 1
      && Fusion(u.ins[n - 1], second, jump) && (forall l | l in u.loc :: u.loc[l] < n)
      && m'.pos == m.pos + [|f'.ins|] && m'.pairs == m.pairs + {n - 1}
    requires u'.ins == u.ins + [second] && f'.ins == f.ins[..|f.ins| - 1] + [jump] && u'.loc == u.loc && f'.loc == f.loc
    requires k <= |u.ins|
    ensures Placed(u', f', m', k)
  {
    hide Fusion;
    if k < |u.ins| {
      assert Placed(u, f, m, k);
      assert k < |u.ins| - 1 && Boundary(m.pairs, k) ==> m.pos[k] < m.pos[|u.ins| - 1];
    }
  }

  /** A jump only absorbs an instruction that is also last in the unfused program. */
  lemma AbsorbedEnd(u: Program, o: Output, m: Match, c: Call)
    requires Corresponds(u, o.program, m) && SameEnd(u, o) && Allowed(u.loc, c) && !c.Place?
    requires |Extend(o, c).program.ins| == |o.program.ins|
    ensures var n, f := |u.ins|, |o.program.ins|;
      && n > 0 && f > 0 && u.ins[n - 1] == o.program.ins[f - 1]
      && Boundary(m.pairs, n - 1) && n - 1 !in m.pairs && m.pos[n - 1] == f - 1
      && Fusion(u.ins[n - 1], PlainJump(c, u.loc), Extend(o, c).program.ins[f - 1])
      && (forall l | l in u.loc :: u.loc[l] < n)
  {
    var n, f := |u.ins|, o.program;
    assert f.ins[|f.ins| - 1].Absorbable();
    assert n > 1 ==> Placed(u, f, m, n - 2);
    assert Placed(u, f, m, n - 1);
  }

  lemma {:induction false} FusedCorresponds(calls: seq<Call>)
    requires Legal(calls)
    ensures Corresponds(Unfused(calls), Fused(calls).program, Matching(calls))
    ensures SameEnd(Unfused(calls), Fused(calls))
  {
    if calls == [] {
    } else {
      FusedCorresponds(calls[..|calls| - 1]);
      var prefix := calls[..|calls| - 1];
      ExtendCorresponds(Unfused(prefix), Fused(prefix), Matching(prefix), calls[|calls| - 1]);
    }
  }
}
