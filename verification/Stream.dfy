/** How the word stream changes when the generator appends, rewinds or patches. */
module Stream {
  import opened Bytecode
  import opened Relate
  import opened Peephole
  import opened Layout

  /** Labels lie within the program. */
  ghost predicate Bounded(p: Program) {
    forall l | l in p.loc :: p.loc[l] <= |p.ins|
  }

  /** `j` is the slot of a jump to `l`. */
  ghost predicate IsSlotOf(p: Program, l: Label, j: nat) {
    exists k :: 0 <= k < |p.ins| && p.ins[k].Jumps() && p.ins[k].target == l && Slot(p.ins, k) == j
  }

  /** What a label knows: its location once placed, until then the slots to patch. */
  ghost predicate LabelTied(location: Option<nat>, pending: seq<nat>, l: Label, p: Program) {
    && (location.Some? <==> l in p.loc)
    && (l in p.loc ==> p.loc[l] <= |p.ins| && location == Some(Offset(p.ins, p.loc[l])))
    && (l !in p.loc ==> forall j: nat :: j in pending <==> IsSlotOf(p, l, j))
  }

  function LastOpcode(o: Output): Op {
    if o.tight && |o.program.ins| > 0 then OpOf(o.program.ins[|o.program.ins| - 1]) else OpEnd
  }

  lemma SlotBelowEnd(p: Program, l: Label, j: nat)
    requires IsSlotOf(p, l, j)
    ensures j < Offset(p.ins, |p.ins|)
  {
    var k :| 0 <= k < |p.ins| && p.ins[k].Jumps() && p.ins[k].target == l && Slot(p.ins, k) == j;
    OffsetMonotone(p.ins, k, |p.ins|);
  }

  // ---------------------------------------------------------------- append

  lemma AppendStored(p: Program, i: Ins, k: nat)
    requires Bounded(p) && k < |p.ins|
    ensures var q := p.(ins := p.ins + [i]);
      Stored(q, k) == Stored(p, k) && Offset(q.ins, k) == Offset(p.ins, k) && Slot(q.ins, k) == Slot(p.ins, k)
  {
    hide Width;
    var q := p.(ins := p.ins + [i]);
    OffsetPrefix(p.ins, q.ins, k);
    var t := p.ins[k];
    if t.Jumps() && t.target >= 0 && t.target in p.loc {
      OffsetPrefix(p.ins, q.ins, p.loc[t.target]);
    }
  }

  /** Appending an encoded instruction encodes the longer program. */
  lemma AppendEncodes(words: seq<Word>, p: Program, i: Ins, d: int)
    requires Encodes(words, p) && Bounded(p)
    requires d == Distance(p.(ins := p.ins + [i]), |p.ins|)
    ensures Encodes(words + Encode(Retarget(i, d)), p.(ins := p.ins + [i]))
  {
    hide Encode, Distance, Width;
    var q, words' := p.(ins := p.ins + [i]), words + Encode(Retarget(i, d));
    var n := |p.ins|;
    OffsetPrefix(p.ins, q.ins, n);
    RetargetedShape(i, d);
    EncodeLength(Retarget(i, d));
    forall k | 0 <= k < |q.ins| ensures StoredAt(words', q, k) {
      if k < n {
        AppendStored(p, i, k);
        assert StoredAt(words, p, k);
        var o := Offset(p.ins, k);
        assert words'[o..o + Width(p.ins[k])] == words[o..o + Width(p.ins[k])];
      }
    }
  }

  lemma EncodeLength(i: Ins)
    ensures |Encode(i)| == Width(i)
  {
  }

  /** Where an appended jump's slot is, and the distance to store there. */
  lemma AppendDistance(p: Program, i: Ins)
    requires Bounded(p)
    ensures var q, slot := p.(ins := p.ins + [i]), Offset(p.ins, |p.ins|) + Width(i) - 1;
      && Slot(q.ins, |p.ins|) == slot
      && Distance(q, |p.ins|) == (if i.Jumps() && i.target >= 0 && i.target in p.loc then Offset(p.ins, p.loc[i.target]) - slot else 0)
      && Offset(q.ins, |q.ins|) == Offset(p.ins, |p.ins|) + Width(i)
  {
    hide Width;
    var q := p.(ins := p.ins + [i]);
    OffsetPrefix(p.ins, q.ins, |p.ins|);
    if i.Jumps() && i.target >= 0 && i.target in p.loc {
      OffsetPrefix(p.ins, q.ins, p.loc[i.target]);
    }
  }

  lemma AppendSlots(p: Program, i: Ins, l: Label, j: nat)
    requires Bounded(p)
    ensures IsSlotOf(p.(ins := p.ins + [i]), l, j) <==>
      (IsSlotOf(p, l, j) || (i.Jumps() && i.target == l && j == Offset(p.ins, |p.ins|) + Width(i) - 1))
  {
    hide Width;
    var q := p.(ins := p.ins + [i]);
    AppendDistance(p, i);
    if IsSlotOf(p, l, j) {
      var k :| 0 <= k < |p.ins| && p.ins[k].Jumps() && p.ins[k].target == l && Slot(p.ins, k) == j;
      AppendStored(p, i, k);
      assert q.ins[k] == p.ins[k];
    }
    if IsSlotOf(q, l, j) {
      var k :| 0 <= k < |q.ins| && q.ins[k].Jumps() && q.ins[k].target == l && Slot(q.ins, k) == j;
      if k < |p.ins| {
        AppendStored(p, i, k);
      }
    }
    if i.Jumps() && i.target == l && j == Offset(p.ins, |p.ins|) + Width(i) - 1 {
      assert q.ins[|p.ins|] == i;
    }
  }

  /** A label stays tied when an instruction is appended and, if it is the pending
      target of that instruction, its slot is recorded. */
  lemma AppendLabelTied(location: Option<nat>, pending: seq<nat>, pending': seq<nat>, l: Label, p: Program, i: Ins)
    requires Bounded(p) && LabelTied(location, pending, l, p)
    requires pending' == if i.Jumps() && i.target == l && location.None? then pending + [Offset(p.ins, |p.ins|) + Width(i) - 1] else pending
    ensures LabelTied(location, pending', l, p.(ins := p.ins + [i]))
  {
    hide Width;
    var q := p.(ins := p.ins + [i]);
    if l in p.loc {
      OffsetPrefix(p.ins, q.ins, p.loc[l]);
    } else {
      forall j: nat ensures j in pending' <==> IsSlotOf(q, l, j) {
        AppendSlots(p, i, l, j);
      }
    }
  }

  // ---------------------------------------------------------------- rewind

  /** Dropping the last instruction, when it is no jump and no label follows it. */
  lemma RewindEncodes(words: seq<Word>, p: Program)
    requires Encodes(words, p) && |p.ins| > 0
    requires forall l | l in p.loc :: p.loc[l] < |p.ins|
    ensures var n, q := |p.ins|, p.(ins := p.ins[..|p.ins| - 1]);
      && Width(p.ins[n - 1]) <= |words|
      && Encodes(words[..|words| - Width(p.ins[n - 1])], q)
  {
    hide Encode, Width;
    var n, q := |p.ins|, p.(ins := p.ins[..|p.ins| - 1]);
    assert p == q.(ins := q.ins + [p.ins[n - 1]]);
    OffsetPrefix(p.ins, q.ins, n - 1);
    OffsetMonotone(p.ins, n - 1, n);
    var words' := words[..|words| - Width(p.ins[n - 1])];
    forall k | 0 <= k < |q.ins| ensures StoredAt(words', q, k) {
      assert StoredAt(words, p, k);
      AppendStored(q, p.ins[n - 1], k);
      OffsetMonotone(p.ins, k, n - 1);
      var o := Offset(p.ins, k);
      assert words'[o..o + Width(p.ins[k])] == words[o..o + Width(p.ins[k])];
    }
  }

  lemma RewindLabelTied(location: Option<nat>, pending: seq<nat>, l: Label, p: Program)
    requires LabelTied(location, pending, l, p) && |p.ins| > 0 && !p.ins[|p.ins| - 1].Jumps()
    requires forall l' | l' in p.loc :: p.loc[l'] < |p.ins|
    ensures LabelTied(location, pending, l, p.(ins := p.ins[..|p.ins| - 1]))
  {
    hide Width;
    var n, q := |p.ins|, p.(ins := p.ins[..|p.ins| - 1]);
    assert p == q.(ins := q.ins + [p.ins[n - 1]]);
    if l in p.loc {
      OffsetPrefix(p.ins, q.ins, p.loc[l]);
    } else {
      forall j: nat ensures j in pending <==> IsSlotOf(q, l, j) {
        AppendSlots(q, p.ins[n - 1], l, j);
      }
    }
  }

  // ----------------------------------------------------------------- place

  /** Placing a label at the end of the stream patches every slot waiting for it. */
  lemma PlaceEncodes(words: seq<Word>, words': seq<Word>, p: Program, l: Label)
    requires Encodes(words, p) && Bounded(p) && l !in p.loc
    requires |words'| == |words|
    requires forall j | 0 <= j < |words| :: words'[j] == if IsSlotOf(p, l, j) then Num(|words| - j) else words[j]
    ensures Encodes(words', p.(loc := p.loc[l := |p.ins|]))
  {
    hide Width, Encode;
    var q := p.(loc := p.loc[l := |p.ins|]);
    forall k | 0 <= k < |p.ins| ensures StoredAt(words', q, k) {
      PlaceStored(words, words', p, l, k);
    }
  }

  lemma PlaceStored(words: seq<Word>, words': seq<Word>, p: Program, l: Label, k: nat)
    requires Encodes(words, p) && Bounded(p) && l !in p.loc && k < |p.ins|
    requires |words'| == |words|
    requires forall j | 0 <= j < |words| :: words'[j] == if IsSlotOf(p, l, j) then Num(|words| - j) else words[j]
    ensures StoredAt(words', p.(loc := p.loc[l := |p.ins|]), k)
  {
    hide Encode, Width, IsSlotOf;
    var q, o, w := p.(loc := p.loc[l := |p.ins|]), Offset(p.ins, k), Width(p.ins[k]);
    assert StoredAt(words, p, k);
    forall j | o <= j < o + w ensures IsSlotOf(p, l, j) <==> (p.ins[k].Jumps() && p.ins[k].target == l && j == o + w - 1) {
      SlotWithin(p, l, k, j);
    }
    EncodeLength(Stored(p, k));
    EncodeLength(Stored(q, k));
    RetargetedShape(p.ins[k], Distance(p, k));
    RetargetedShape(p.ins[k], Distance(q, k));
    if p.ins[k].Jumps() && p.ins[k].target == l {
      EncodeRetargeted(p.ins[k], Distance(p, k), Distance(q, k));
      var e := Encode(Stored(p, k));
      forall j | 0 <= j < w ensures words'[o + j] == Encode(Stored(q, k))[j] {
        assert words[o..o + w][j] == e[j];
      }
      assert words'[o..o + w] == Encode(Stored(q, k));
    } else {
      assert words'[o..o + w] == words[o..o + w];
      assert Stored(q, k) == Stored(p, k);
    }
  }

  /** Only the last word of an encoded jump depends on its distance. */
  lemma EncodeRetargeted(i: Ins, d: int, d': int)
    requires i.Jumps()
    ensures |Encode(Retarget(i, d'))| == |Encode(Retarget(i, d))| == Width(i)
    ensures Encode(Retarget(i, d')) == Encode(Retarget(i, d))[Width(i) - 1 := Num(d')]
  {
  }

  lemma EncodeTarget(i: Ins, d: int)
    requires i.Jumps()
    ensures Width(i) >= 1 && |Encode(i)| == Width(i)
    ensures Encode(Retarget(i, d)) == Encode(i)[..Width(i) - 1] + [Num(d)]
  {
    EncodeRetargeted(i, i.target, d);
    assert Retarget(i, i.target) == i;
  }

  lemma SlotWithin(p: Program, l: Label, k: nat, j: nat)
    requires k < |p.ins| && Offset(p.ins, k) <= j < Offset(p.ins, k) + Width(p.ins[k])
    ensures IsSlotOf(p, l, j) <==> (p.ins[k].Jumps() && p.ins[k].target == l && j == Slot(p.ins, k))
  {
    hide Width, Offset;
    WidthPositive(p.ins[k]);
    if IsSlotOf(p, l, j) {
      var k' :| 0 <= k' < |p.ins| && p.ins[k'].Jumps() && p.ins[k'].target == l && Slot(p.ins, k') == j;
      WidthPositive(p.ins[k']);
      if k' < k {
        OffsetMonotone(p.ins, k', k);
      } else if k < k' {
        OffsetMonotone(p.ins, k, k');
      }
    }
  }

  lemma WidthPositive(i: Ins)
    ensures Width(i) >= 1
  {
  }

  lemma PlaceSlots(p: Program, l: Label, l': Label, j: nat)
    ensures IsSlotOf(p.(loc := p.loc[l := |p.ins|]), l', j) <==> IsSlotOf(p, l', j)
  {
    var q := p.(loc := p.loc[l := |p.ins|]);
    assert forall k | 0 <= k < |p.ins| :: Slot(q.ins, k) == Slot(p.ins, k);
  }

  lemma PlaceLabelTied(location: Option<nat>, pending: seq<nat>, l': Label, p: Program, l: Label)
    requires LabelTied(location, pending, l', p) && l !in p.loc && l' != l
    ensures LabelTied(location, pending, l', p.(loc := p.loc[l := |p.ins|]))
  {
    if l' !in p.loc {
      forall j: nat ensures j in pending <==> IsSlotOf(p.(loc := p.loc[l := |p.ins|]), l', j) {
        PlaceSlots(p, l, l', j);
      }
    }
  }

  /** Rewinding keeps the width, so recorded positions stay within the stream. */
  lemma FusedWidth(last: Ins, c: Call, loc: map<Label, nat>)
    requires TryFuse(last, c, loc).Some?
    ensures Width(TryFuse(last, c, loc).value) == Width(last)
    ensures last.Absorbable() && !last.Jumps() && TryFuse(last, c, loc).value.Jumps()
    ensures (c.JumpIfTrue? || c.JumpIfFalse?) && TryFuse(last, c, loc).value.target == c.l
  {
  }

  // ------------------------------------------------- the generator's invariant

  datatype LabelView = LabelView(location: Option<nat>, pending: seq<nat>)

  /** Jump targets and labels are among the first `count` labels. */
  ghost predicate TargetsKnown(p: Program, count: nat) {
    && (forall l | l in p.loc :: l < count)
    && (forall k | 0 <= k < |p.ins| && p.ins[k].Jumps() :: 0 <= p.ins[k].target < count)
  }

  /** The words and the labels are those of the calls made so far: each operand of a jump
      to a placed label holds the distance from its slot, and each pending slot is known
      to its label. */
  ghost predicate StreamTied(words: seq<Word>, views: seq<LabelView>, calls: seq<Call>) {
    var p := Fused(calls).program;
    && Legal(calls)
    && Unfused(calls).loc.Keys == p.loc.Keys
    && Encodes(words, p)
    && Bounded(p)
    && TargetsKnown(p, |views|)
    && (Fused(calls).tight ==> |p.ins| > 0 && forall l | l in p.loc :: p.loc[l] < |p.ins|)
    && (forall l | 0 <= l < |views| :: LabelTied(views[l].location, views[l].pending, l, p))
  }

  function StoredDistance(views: seq<LabelView>, i: Ins, slot: nat): int {
    if i.Jumps() && 0 <= i.target < |views| && views[i.target].location.Some?
    then views[i.target].location.value - slot else 0
  }

  function Recorded(views: seq<LabelView>, i: Ins, slot: nat): seq<LabelView> {
    if i.Jumps() && 0 <= i.target < |views| && views[i.target].location.None?
    then views[i.target := LabelView(None, views[i.target].pending + [slot])] else views
  }

  ghost predicate ReadyFor(calls: seq<Call>, views: seq<LabelView>, c: Call) {
    && Allowed(Unfused(calls).loc, c)
    && (match c
        case Emit(i) => i.Jumps() ==> 0 <= i.target < |views|
        case _ => c.l < |views|)
  }

  lemma CallsExtended(calls: seq<Call>, c: Call)
    ensures Fused(calls + [c]) == Extend(Fused(calls), c)
    ensures Unfused(calls + [c]) == ExtendPlain(Unfused(calls), c)
    ensures Legal(calls) && Allowed(Unfused(calls).loc, c) ==> Legal(calls + [c])
  {
    assert (calls + [c])[..|calls + [c]| - 1] == calls;
  }

  lemma InstructionTied(words: seq<Word>, views: seq<LabelView>, p: Program, i: Ins)
    requires Encodes(words, p) && Bounded(p) && TargetsKnown(p, |views|)
    requires forall l | 0 <= l < |views| :: LabelTied(views[l].location, views[l].pending, l, p)
    requires i.Jumps() ==> 0 <= i.target < |views|
    ensures var slot, q := |words| + Width(i) - 1, p.(ins := p.ins + [i]);
      var words', views' := words + Encode(Retarget(i, StoredDistance(views, i, slot))), Recorded(views, i, slot);
      && Encodes(words', q) && Bounded(q) && TargetsKnown(q, |views'|)
      && (forall l | 0 <= l < |views'| :: LabelTied(views'[l].location, views'[l].pending, l, q))
  {
    hide Encode, Width, LabelTied;
    var slot, q := |words| + Width(i) - 1, p.(ins := p.ins + [i]);
    AppendDistance(p, i);
    assert StoredDistance(views, i, slot) == Distance(q, |p.ins|) by {
      if i.Jumps() { TargetLocation(views, p, i.target); }
    }
    AppendEncodes(words, p, i, StoredDistance(views, i, slot));
    var views' := Recorded(views, i, slot);
    forall l | 0 <= l < |views'| ensures LabelTied(views'[l].location, views'[l].pending, l, q) {
      AppendLabelTied(views[l].location, views[l].pending, views'[l].pending, l, p, i);
    }
  }

  lemma TargetLocation(views: seq<LabelView>, p: Program, l: nat)
    requires l < |views| && LabelTied(views[l].location, views[l].pending, l, p)
    ensures views[l].location.Some? <==> l in p.loc
    ensures l in p.loc ==> p.loc[l] <= |p.ins| && views[l].location.value == Offset(p.ins, p.loc[l])
  {
  }

  /** A call that adds one instruction. */
  lemma KeepAppend(words: seq<Word>, views: seq<LabelView>, calls: seq<Call>, c: Call)
    requires StreamTied(words, views, calls) && ReadyFor(calls, views, c) && !c.Place?
    requires Fused(calls).tight && |Fused(calls).program.ins| > 0 ==>
      TryFuse(Fused(calls).program.ins[|Fused(calls).program.ins| - 1], c, Fused(calls).program.loc).None?
    ensures var i := PlainJump(c, Fused(calls).program.loc);
      var slot := |words| + Width(i) - 1;
      && StreamTied(words + Encode(Retarget(i, StoredDistance(views, i, slot))), Recorded(views, i, slot), calls + [c])
      && LastOpcode(Fused(calls + [c])) == OpOf(i)
  {
    hide Encodes, Encode, Width, LabelTied, TryFuse, Legal, Fused, Unfused, Recorded, StoredDistance, OpOf;
    CallsExtended(calls, c);
    var p := Fused(calls).program;
    InstructionTied(words, views, p, PlainJump(c, p.loc));
  }

  /** A conditional jump that absorbs the last instruction. */
  lemma KeepFuse(words: seq<Word>, views: seq<LabelView>, calls: seq<Call>, c: Call)
    requires StreamTied(words, views, calls) && ReadyFor(calls, views, c) && !c.Place?
    requires Fused(calls).tight && |Fused(calls).program.ins| > 0
    requires TryFuse(Fused(calls).program.ins[|Fused(calls).program.ins| - 1], c, Fused(calls).program.loc).Some?
    ensures var last := Fused(calls).program.ins[|Fused(calls).program.ins| - 1];
      var jump, slot := TryFuse(last, c, Fused(calls).program.loc).value, |words| - 1;
      && Width(last) <= |words| && Width(jump) == Width(last)
      && StreamTied(words[..|words| - Width(last)] + Encode(Retarget(jump, StoredDistance(views, jump, slot))), Recorded(views, jump, slot), calls + [c])
      && LastOpcode(Fused(calls + [c])) == OpOf(jump)
  {
    hide Encodes, Encode, Width, LabelTied, TryFuse, Ins.Absorbable, PlainJump, Legal, Fused, Unfused, Recorded, StoredDistance;
    CallsExtended(calls, c);
    var p := Fused(calls).program;
    var last := p.ins[|p.ins| - 1];
    FusedWidth(last, c, p.loc);
    var jump := TryFuse(last, c, p.loc).value;
    RewindEncodes(words, p);
    var q, rest := p.(ins := p.ins[..|p.ins| - 1]), words[..|words| - Width(last)];
    forall l | 0 <= l < |views| ensures LabelTied(views[l].location, views[l].pending, l, q) {
      RewindLabelTied(views[l].location, views[l].pending, l, p);
    }
    InstructionTied(rest, views, q, jump);
  }

  /** Placing a label. */
  lemma KeepPlace(words: seq<Word>, words': seq<Word>, views: seq<LabelView>, calls: seq<Call>, l: Label)
    requires StreamTied(words, views, calls) && ReadyFor(calls, views, Place(l))
    requires |words'| == |words|
    requires forall j | 0 <= j < |words| :: words'[j] == if j in views[l].pending then Num(|words| - j) else words[j]
    ensures StreamTied(words', views[l := LabelView(Some(|words|), views[l].pending)], calls + [Place(l)])
    ensures LastOpcode(Fused(calls + [Place(l)])) == OpEnd
  {
    CallsExtended(calls, Place(l));
    var p := Fused(calls).program;
    var q := p.(loc := p.loc[l := |p.ins|]);
    TargetLocation(views, p, l);
    assert forall j: nat :: j in views[l].pending <==> IsSlotOf(p, l, j);
    PlaceEncodes(words, words', p, l);
    hide Encodes, IsSlotOf;
    var views' := views[l := LabelView(Some(|words|), views[l].pending)];
    assert |words| == Offset(q.ins, q.loc[l]) by { EncodesLength(words, p); }
    forall l' | 0 <= l' < |views'| ensures LabelTied(views'[l'].location, views'[l'].pending, l', q) {
      if l' != l { PlaceLabelTied(views[l'].location, views[l'].pending, l', p, l); }
    }
  }

  lemma EncodesLength(words: seq<Word>, p: Program)
    requires Encodes(words, p)
    ensures |words| == Offset(p.ins, |p.ins|)
  {
  }

  /** A new label is not the target of anything. */
  lemma KeepNewLabel(words: seq<Word>, views: seq<LabelView>, calls: seq<Call>)
    requires StreamTied(words, views, calls)
    ensures StreamTied(words, views + [LabelView(None, [])], calls)
  {
    hide Encodes, Bounded;
    var views' := views + [LabelView(None, [])];
    forall l | 0 <= l < |views'| ensures LabelTied(views'[l].location, views'[l].pending, l, Fused(calls).program) {
      if l < |views| { assert LabelTied(views[l].location, views[l].pending, l, Fused(calls).program); }
    }
  }

  /** A slot waiting for a label lies within the stream. */
  lemma PendingWithin(words: seq<Word>, views: seq<LabelView>, calls: seq<Call>, l: nat, j: nat)
    requires StreamTied(words, views, calls) && l < |views| && views[l].location.None? && j in views[l].pending
    ensures j < |words|
  {
    assert LabelTied(views[l].location, views[l].pending, l, Fused(calls).program);
    SlotBelowEnd(Fused(calls).program, l, j);
  }

  /** A label is a forward label until it is placed. */
  lemma ForwardIffUnplaced(words: seq<Word>, views: seq<LabelView>, calls: seq<Call>, l: nat)
    requires StreamTied(words, views, calls) && l < |views|
    ensures views[l].location.None? <==> l !in Unfused(calls).loc
    ensures views[l].location.None? <==> l !in Fused(calls).program.loc
  {
    TargetLocation(views, Fused(calls).program, l);
  }

  /** The last opcode identifies the last instruction and its words. */
  lemma LastInstruction(words: seq<Word>, views: seq<LabelView>, calls: seq<Call>)
    requires StreamTied(words, views, calls) && LastOpcode(Fused(calls)) != OpEnd
    ensures var o := Fused(calls);
      && o.tight && |o.program.ins| > 0
      && var last := o.program.ins[|o.program.ins| - 1];
      && OpOf(last) == LastOpcode(o)
      && Width(last) <= |words|
      && (!last.Jumps() ==> words[|words| - Width(last)..] == Encode(last))
  {
    hide Encode, Width, TargetsKnown, LabelTied, Bounded, Distance;
    var o := Fused(calls);
    var n := |o.program.ins|;
    assert StoredAt(words, o.program, n - 1);
    assert words[|words| - Width(o.program.ins[n - 1])..] == words[Offset(o.program.ins, n - 1)..Offset(o.program.ins, n - 1) + Width(o.program.ins[n - 1])];
  }

  /** Every jump operand: the distance from its slot to its label once placed; until
      then 0, and the slot waits for the label. */
  lemma JumpOperands(words: seq<Word>, views: seq<LabelView>, calls: seq<Call>, k: nat)
    requires StreamTied(words, views, calls)
    requires k < |Fused(calls).program.ins| && Fused(calls).program.ins[k].Jumps()
    ensures var ins, l := Fused(calls).program.ins, Fused(calls).program.ins[k].target;
      var slot := Slot(ins, k);
      && 0 <= l < |views| && slot < |words|
      && (views[l].location.Some? ==> words[slot] == Num(views[l].location.value - slot))
      && (views[l].location.None? ==> words[slot] == Num(0) && slot in views[l].pending)
  {
    hide Encode, Width, Legal, Fused, Unfused;
    var p := Fused(calls).program;
    var i, d, l, slot := p.ins[k], Distance(p, k), p.ins[k].target, Slot(p.ins, k);
    assert StoredAt(words, p, k);
    EncodeTarget(i, d);
    var o := Offset(p.ins, k);
    assert words[slot] == words[o..o + Width(i)][Width(i) - 1] == Num(d);
    assert LabelTied(views[l].location, views[l].pending, l, p);
    if l !in p.loc { assert IsSlotOf(p, l, slot); }
  }

  /** No placed label and no waiting slot lies within the words a fusion takes back. */
  lemma RewoundUntouched(words: seq<Word>, views: seq<LabelView>, calls: seq<Call>, l: nat)
    requires StreamTied(words, views, calls) && l < |views|
    requires LastOpcode(Fused(calls)) in {OpLess, OpLessEq, OpNot, OpEqNull, OpNeqNull}
    ensures var start := |words| - Width(Fused(calls).program.ins[|Fused(calls).program.ins| - 1]);
      && (views[l].location.Some? ==> views[l].location.value <= start)
      && (views[l].location.None? ==> forall j | j in views[l].pending :: j < start)
  {
    hide Encode, Width, Legal, Fused, Unfused, IsSlotOf, OpOf;
    LastInstruction(words, views, calls);
    var p := Fused(calls).program;
    var n := |p.ins|;
    AbsorbableOpcode(p.ins[n - 1]);
    assert LabelTied(views[l].location, views[l].pending, l, p);
    OffsetPrefix(p.ins, p.ins[..n - 1], n - 1);
    if l in p.loc {
      if p.loc[l] < n - 1 { OffsetMonotone(p.ins, p.loc[l], n - 1); }
    } else {
      RewindLabelTied(views[l].location, views[l].pending, l, p);
      var q := p.(ins := p.ins[..n - 1]);
      forall j | j in views[l].pending ensures j < Offset(p.ins, n - 1) {
        assert IsSlotOf(q, l, j);
        SlotBelowEnd(q, l, j);
      }
    }
  }

  /** `last` is the last instruction, with no label after it. */
  ghost predicate LastIs(calls: seq<Call>, last: Ins) {
    var o := Fused(calls);
    o.tight && |o.program.ins| > 0 && o.program.ins[|o.program.ins| - 1] == last
  }

  /** The opcodes and operands that make a conditional jump absorb the last instruction. */
  predicate Absorbs(op: Op, dst: int, c: Call, forward: bool) {
    && (c.JumpIfTrue? || c.JumpIfFalse?) && c.free && c.cond == dst
    && (c.JumpIfTrue? ==> ((op == OpLess || op == OpLessEq) && !forward) || ((op == OpEqNull || op == OpNeqNull) && forward))
    && (c.JumpIfFalse? ==> op in {OpLess, OpNot, OpEqNull, OpNeqNull})
  }

  ghost predicate AbsorbsNothing(calls: seq<Call>, op: Op, c: Call, forward: bool) {
    forall last | LastIs(calls, last) && last.Absorbable() :: !Absorbs(op, last.dst, c, forward)
  }

  /** Most opcodes, and most directions, rule out absorbing. */
  lemma OpcodeAbsorbsNothing(calls: seq<Call>, op: Op, c: Call, forward: bool)
    requires c.JumpIfTrue? || c.JumpIfFalse?
    ensures op !in (if c.JumpIfFalse? then {OpLess, OpNot, OpEqNull, OpNeqNull} else if forward then {OpEqNull, OpNeqNull} else {OpLess, OpLessEq})
      ==> AbsorbsNothing(calls, op, c, forward)
  {
  }

  lemma NothingFused(words: seq<Word>, views: seq<LabelView>, calls: seq<Call>, c: Call)
    requires StreamTied(words, views, calls) && (c.JumpIfTrue? || c.JumpIfFalse?) && c.l < |views|
    requires AbsorbsNothing(calls, LastOpcode(Fused(calls)), c, views[c.l].location.None?)
    ensures Fused(calls).tight && |Fused(calls).program.ins| > 0 ==>
      TryFuse(Fused(calls).program.ins[|Fused(calls).program.ins| - 1], c, Fused(calls).program.loc).None?
  {
    hide StreamTied, Fused, Unfused;
    ForwardIffUnplaced(words, views, calls, c.l);
    var o := Fused(calls);
    if o.tight && |o.program.ins| > 0 {
      var last := o.program.ins[|o.program.ins| - 1];
      assert LastIs(calls, last);
    }
  }

  lemma FusesBinary(op: Op, fusedOp: Op, src1: int, src2: int, c: Call, loc: map<Label, nat>)
    requires op in {OpLess, OpLessEq} && (c.JumpIfTrue? || c.JumpIfFalse?) && c.free
    requires c.JumpIfTrue? ==> c.l in loc && fusedOp == if op == OpLess then OpLoopIfLess else OpLoopIfLessEq
    requires c.JumpIfFalse? ==> fusedOp == OpJNLess && op == OpLess
    ensures var last, jump := Build(op, [c.cond, src1, src2]).value, Build(fusedOp, [src1, src2, c.l]).value;
      && TryFuse(last, c, loc) == Some(jump) && (last.Less? || last.LessEq?)
      && OpOf(jump) == fusedOp && Operands(jump) == [src1, src2, c.l] && jump.Jumps() && jump.target == c.l
  {
  }

  lemma FusesUnary(op: Op, fusedOp: Op, src: int, c: Call, loc: map<Label, nat>)
    requires op in {OpNot, OpEqNull, OpNeqNull} && (c.JumpIfTrue? || c.JumpIfFalse?) && c.free && c.l !in loc
    requires c.JumpIfTrue? ==> op != OpNot && fusedOp == if op == OpEqNull then OpJEqNull else OpJNeqNull
    requires c.JumpIfFalse? ==>
      fusedOp == if op == OpNot then OpJTrue else if op == OpEqNull then OpJNeqNull else OpJEqNull
    ensures var last, jump := Build(op, [c.cond, src]).value, Build(fusedOp, [src, c.l]).value;
      && TryFuse(last, c, loc) == Some(jump) && (last.Not? || last.EqNull? || last.NeqNull?)
      && OpOf(jump) == fusedOp && Operands(jump) == [src, c.l] && jump.Jumps() && jump.target == c.l
  {
  }

  lemma BinaryShape(last: Ins, jump: Ins)
    requires (last.Less? || last.LessEq?) && |Operands(jump)| == 3
    ensures |Encode(jump)| == Width(jump) == 4 == Width(last)
    ensures Encode(jump)[..3] == [Opc(OpOf(jump)), Num(Operands(jump)[0]), Num(Operands(jump)[1])]
  {
  }

  lemma UnaryShape(last: Ins, jump: Ins)
    requires (last.Not? || last.EqNull? || last.NeqNull?) && |Operands(jump)| == 2
    ensures |Encode(jump)| == Width(jump) == 3 == Width(last)
    ensures Encode(jump)[..2] == [Opc(OpOf(jump)), Num(Operands(jump)[0])]
  {
  }

  lemma OtherCondition(calls: seq<Call>, op: Op, last: Ins, c: Call, forward: bool)
    requires LastIs(calls, last) && last.Absorbable() && (c.JumpIfTrue? || c.JumpIfFalse?)
    requires !(c.free && c.cond == last.dst)
    ensures AbsorbsNothing(calls, op, c, forward)
  {
  }

  lemma ConditionalShape(op: Op, c: Call, loc: map<Label, nat>)
    requires c.JumpIfTrue? || c.JumpIfFalse?
    requires op == if c.JumpIfFalse? then OpJFalse else if c.l in loc then OpLoopIfTrue else OpJTrue
    ensures var i := PlainJump(c, loc);
      i.Jumps() && i.target == c.l && OpOf(i) == op && Operands(i) == [c.cond] + [c.l]
  {
  }

  lemma OperandCount(op: Op)
    ensures op in {OpLess, OpLessEq} ==> Arity(op) == 3
    ensures op in {OpNot, OpEqNull, OpNeqNull} ==> Arity(op) == 2
  {
  }

  /** The operand words of the last instruction rebuild it. */
  lemma LastOperands(words: seq<Word>, views: seq<LabelView>, calls: seq<Call>)
    requires StreamTied(words, views, calls)
    requires LastOpcode(Fused(calls)) in {OpLess, OpLessEq, OpNot, OpEqNull, OpNeqNull}
    ensures var op := LastOpcode(Fused(calls));
      && Arity(op) < |words|
      && Build(op, Fetch(words, |words| - Arity(op), Arity(op))).Some?
      && LastIs(calls, Build(op, Fetch(words, |words| - Arity(op), Arity(op))).value)
  {
    hide StreamTied, Fused, LastOpcode, Operands, Build, OpOf, Arity, Ins.Jumps;
    LastInstruction(words, views, calls);
    var last := Fused(calls).program.ins[|Fused(calls).program.ins| - 1];
    AbsorbableOpcode(last);
    BuildOperands(last);
    assert Fetch(words, |words| - Arity(OpOf(last)), Arity(OpOf(last))) == Operands(last) by {
      TailOperands(words, last);
    }
  }

  lemma AbsorbableOpcode(i: Ins)
    ensures OpOf(i) in {OpLess, OpLessEq, OpNot, OpEqNull, OpNeqNull} <==> i.Absorbable()
    ensures i.Absorbable() ==> !i.Jumps()
  {
  }

  lemma TailOperands(words: seq<Word>, i: Ins)
    requires Width(i) <= |words| && words[|words| - Width(i)..] == Encode(i)
    ensures |Operands(i)| < |words| && Fetch(words, |words| - |Operands(i)|, |Operands(i)|) == Operands(i)
  {
    hide Operands, OpOf;
    var n, a := |words|, |Operands(i)|;
    forall k | 0 <= k < a ensures words[n - a + k] == Num(Operands(i)[k]) {
      assert words[n - Width(i)..][1 + k] == Encode(i)[1 + k];
    }
  }
}
