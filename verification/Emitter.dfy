/** The code generator's emission interface: labels that are back-patched, and an
    instruction vector that is appended to and rewound. */
module Emitter {
  import opened Bytecode
  import opened Relate
  import opened Peephole
  import opened Layout
  import opened Stream
  import opened Positions
  import opened Registers
  import opened Unwind
  import opened CallMeaning

  class CodeBlock {
    var instructions: seq<Word>
    var labels: set<nat>
    var lineInfo: seq<LineInfo>
    var expressionInfo: seq<ExpressionRangeInfo>
    const sourceOffset: uint32

    constructor (sourceOffset: uint32)
      ensures instructions == [] && labels == {} && lineInfo == [] && expressionInfo == []
      ensures this.sourceOffset == sourceOffset
    {
      instructions, labels, lineInfo, expressionInfo := [], {}, [], [];
      this.sourceOffset := sourceOffset;
    }
  }

  class LabelID {
    var location: Option<nat>          // None: invalidLocation
    var unresolvedJumps: seq<nat>
    const codeBlock: CodeBlock
    ghost const name: Label

    constructor (codeBlock: CodeBlock, ghost name: Label)
      ensures location == None && unresolvedJumps == [] && this.codeBlock == codeBlock && this.name == name
    {
      location, unresolvedJumps := None, [];
      this.codeBlock := codeBlock;
      this.name := name;
    }

    predicate IsForwardLabel()
      reads this
    {
      location.None?
    }

    method SetLocation(location: nat)
      requires forall j | j in unresolvedJumps :: j < |codeBlock.instructions|
      modifies this`location, codeBlock`instructions, codeBlock`labels
      ensures this.location == Some(location)
      ensures |codeBlock.instructions| == |old(codeBlock.instructions)|
      ensures forall j | 0 <= j < |codeBlock.instructions| ::
        codeBlock.instructions[j] == if j in unresolvedJumps then Num(location - j) else old(codeBlock.instructions)[j]
      ensures codeBlock.labels == old(codeBlock.labels) + {location}
    {
      this.location := Some(location);
      var size := |unresolvedJumps|;
      for i := 0 to size
        invariant this.location == Some(location) && codeBlock.labels == old(codeBlock.labels)
        invariant |codeBlock.instructions| == |old(codeBlock.instructions)|
        invariant forall j | 0 <= j < |codeBlock.instructions| ::
          codeBlock.instructions[j] == if j in unresolvedJumps[..i] then Num(location - j) else old(codeBlock.instructions)[j]
      {
        var j := unresolvedJumps[i];
        assert j in unresolvedJumps;
        codeBlock.instructions := codeBlock.instructions[j := Num(location - j)];
        assert unresolvedJumps[..i + 1] == unresolvedJumps[..i] + [j];
      }
      codeBlock.labels := codeBlock.labels + {location};
    }

    method OffsetFrom(location: nat) returns (offset: int)
      modifies this`unresolvedJumps
      ensures this.location.None? ==> offset == 0 && unresolvedJumps == old(unresolvedJumps) + [location]
      ensures this.location.Some? ==> offset == this.location.value - location && unresolvedJumps == old(unresolvedJumps)
    {
      if this.location == None {
        unresolvedJumps := unresolvedJumps + [location];
        return 0;
      }
      return this.location.value - location;
    }
  }

  ghost function ViewsOf(labels: seq<LabelID>): (views: seq<LabelView>)
    reads labels
    ensures |views| == |labels|
    ensures forall l | 0 <= l < |labels| :: views[l] == LabelView(labels[l].location, labels[l].unresolvedJumps)
  {
    seq(|labels|, l requires 0 <= l < |labels| reads labels => LabelView(labels[l].location, labels[l].unresolvedJumps))
  }

  /** The word some opcodes have after their operands. */
  function Types(op: Op, types: int): seq<int> {
    if op.OpPlain? && op.imms == 1 then [types] else []
  }

  predicate IsUnary(op: Op) {
    op in {OpNot, OpEqNull, OpNeqNull} || (op.OpPlain? && op.args == 1 && op.imms <= 1)
  }

  function UnaryIns(op: Op, dst: Reg, src: Reg, type_: int): Ins
    requires IsUnary(op)
  {
    match op
    case OpNot => Not(dst, src)
    case OpEqNull => EqNull(dst, src)
    case OpNeqNull => NeqNull(dst, src)
    case OpPlain(opcode, _, imms) => Plain(opcode, dst, [src], if imms == 1 then [type_] else [])
  }

  predicate IsBinary(op: Op) {
    op in {OpLess, OpLessEq} || (op.OpPlain? && op.args == 2 && op.imms <= 1)
  }

  function BinaryIns(op: Op, dst: Reg, src1: Reg, src2: Reg, types: int): Ins
    requires IsBinary(op)
  {
    match op
    case OpLess => Less(dst, src1, src2)
    case OpLessEq => LessEq(dst, src1, src2)
    case OpPlain(opcode, _, imms) => Plain(opcode, dst, [src1, src2], if imms == 1 then [types] else [])
  }

  lemma NameOperands(dst: Reg, iter: Reg, l: Label)
    ensures OpOf(NextName(dst, iter, l)) == OpNextName && Operands(NextName(dst, iter, l)) == [dst, iter, l]
  {
  }

  lemma UnaryMeans(calls: seq<Call>, op: Op, dst: Reg, src: Reg, type_: int)
    requires IsUnary(op)
    ensures var i := UnaryIns(op, dst, src, type_); var after := calls + [Emit(i)];
      && OpOf(i) == op && Operands(i) == [dst, src] + Types(op, type_) && !i.Jumps()
      && |Unfused(after).ins| > 0 && ComputesUnary(LastOf(after), op, dst, src, Types(op, type_))
  {
    hide Unfused, ComputesUnary;
    LastCall(calls, Emit(UnaryIns(op, dst, src, type_)));
    UnaryComputes(UnaryIns(op, dst, src, type_), op, dst, src, Types(op, type_));
  }

  lemma BinaryMeans(calls: seq<Call>, op: Op, dst: Reg, src1: Reg, src2: Reg, types: int)
    requires IsBinary(op)
    ensures var i := BinaryIns(op, dst, src1, src2, types); var after := calls + [Emit(i)];
      && OpOf(i) == op && Operands(i) == [dst, src1, src2] + Types(op, types) && !i.Jumps()
      && |Unfused(after).ins| > 0 && ComputesBinary(LastOf(after), op, dst, src1, src2, Types(op, types))
  {
    hide Unfused, ComputesBinary;
    LastCall(calls, Emit(BinaryIns(op, dst, src1, src2, types)));
    BinaryComputes(BinaryIns(op, dst, src1, src2, types), op, dst, src1, src2, Types(op, types));
  }

  /** A `with`-like scope or a finally block being generated around the current code. */
  datatype ControlFlowContext = ScopeContext | FinallyContext(finallyAddr: LabelID, retAddrDst: Reg)

  ghost function ContextOf(c: ControlFlowContext): Context {
    match c
    case ScopeContext => Scope
    case FinallyContext(addr, ret) => Finally(addr.name, ret)
  }

  ghost function ContextsOf(stack: seq<ControlFlowContext>): (cs: seq<Context>)
    ensures |cs| == |stack| && forall k | 0 <= k < |stack| :: cs[k] == ContextOf(stack[k])
  {
    seq(|stack|, k requires 0 <= k < |stack| => ContextOf(stack[k]))
  }

  function FinallyCount(stack: seq<ControlFlowContext>): nat {
    if stack == [] then 0
    else FinallyCount(stack[..|stack| - 1]) + if stack[|stack| - 1].FinallyContext? then 1 else 0
  }

  lemma OneMoreContext(stack: seq<ControlFlowContext>, c: ControlFlowContext)
    ensures FinallyCount(stack + [c]) == FinallyCount(stack) + if c.FinallyContext? then 1 else 0
  {
    assert (stack + [c])[..|stack|] == stack;
  }

  lemma {:induction false} ScopesBelowFinally(stack: seq<ControlFlowContext>)
    requires |stack| > 0 && stack[|stack| - 1].ScopeContext?
    ensures FinallyCount(stack) < |stack|
    ensures FinallyCount(stack[..|stack| - 1]) == FinallyCount(stack)
  {
    FinallyCountBound(stack[..|stack| - 1]);
  }

  lemma {:induction false} FinallyCountBound(stack: seq<ControlFlowContext>)
    ensures FinallyCount(stack) <= |stack|
  {
    if stack != [] {
      FinallyCountBound(stack[..|stack| - 1]);
    }
  }

  lemma {:induction false} NoFinally(stack: seq<ControlFlowContext>)
    requires FinallyCount(stack) == 0
    ensures forall k | 0 <= k < |stack| :: stack[k].ScopeContext?
  {
    if stack != [] {
      NoFinally(stack[..|stack| - 1]);
    }
  }

  class CodeGenerator {
    const codeBlock: CodeBlock
    var lastOpcodeID: Op
    var scopeContextStack: seq<ControlFlowContext>
    var finallyDepth: nat
    var dynamicScopeDepth: nat
    ghost var labels: seq<LabelID>
    ghost var calls: seq<Call>
    ghost var visits: seq<LineInfo>
    ghost var expressions: seq<Expression>

    ghost function Views(): (views: seq<LabelView>)
      reads this`labels, labels
      ensures |views| == |labels|
      ensures forall l | 0 <= l < |labels| :: views[l] == LabelView(labels[l].location, labels[l].unresolvedJumps)
    {
      ViewsOf(labels)
    }

    ghost predicate LabelsNamed()
      reads this`labels
    {
      forall l | 0 <= l < |labels| :: labels[l].name == l && labels[l].codeBlock == codeBlock
    }

    /** Everything recorded lies within the first `size` words, in order. */
    ghost predicate PositionsRecorded(size: nat)
      reads this`visits, this`expressions, codeBlock`lineInfo, codeBlock`expressionInfo
    {
      && LinesSorted(visits)
      && codeBlock.lineInfo == RecordLines(visits)
      && (forall k | 0 <= k < |visits| :: visits[k].instructionOffset <= size)
      && ExpressionsSorted(expressions)
      && codeBlock.expressionInfo == ClampAll(expressions, codeBlock.sourceOffset)
      && (forall k | 0 <= k < |expressions| :: expressions[k].offset <= size)
    }

    lemma PositionsGrow(size: nat, more: nat)
      requires PositionsRecorded(size) && size <= more
      ensures PositionsRecorded(more)
    {
    }

    ghost predicate Valid()
      reads this`labels, this`calls, this`lastOpcodeID, this`visits, this`expressions
      reads codeBlock`instructions, codeBlock`lineInfo, codeBlock`expressionInfo, labels
    {
      && LabelsNamed()
      && StreamTied(codeBlock.instructions, Views(), calls)
      && lastOpcodeID == LastOpcode(Fused(calls))
      && PositionsRecorded(|codeBlock.instructions|)
    }

    lemma Opened()
      requires Valid()
      ensures LabelsNamed() && PositionsRecorded(|codeBlock.instructions|)
      ensures StreamTied(codeBlock.instructions, Views(), calls) && lastOpcodeID == LastOpcode(Fused(calls))
    {
    }

    constructor (codeBlock: CodeBlock)
      requires codeBlock.instructions == [] && codeBlock.lineInfo == [] && codeBlock.expressionInfo == []
      ensures Valid() && calls == [] && labels == [] && this.codeBlock == codeBlock
      ensures scopeContextStack == [] && finallyDepth == dynamicScopeDepth == 0
    {
      this.codeBlock := codeBlock;
      lastOpcodeID := OpEnd;
      scopeContextStack, finallyDepth, dynamicScopeDepth := [], 0, 0;
      labels, calls, visits, expressions := [], [], [], [];
    }

    method NewLabel() returns (l: LabelID)
      requires Valid()
      modifies this`labels
      ensures Valid() && fresh(l) && labels == old(labels) + [l]
      ensures l.IsForwardLabel() && l.codeBlock == codeBlock && l.name == |old(labels)|
    {
      KeepNewLabel(codeBlock.instructions, Views(), calls);
      ghost var views := Views();
      l := new LabelID(codeBlock, |labels|);
      labels := labels + [l];
      assert Views() == views + [LabelView(None, [])];
    }

    method EmitLabel(l: LabelID)
      requires Valid() && l in labels && l.IsForwardLabel()
      modifies this`calls, this`lastOpcodeID, codeBlock`instructions, codeBlock`labels, l
      ensures Valid() && calls == old(calls) + [Place(l.name)]
      ensures l.location == Some(|codeBlock.instructions|) && |codeBlock.instructions| == |old(codeBlock.instructions)|
    {
      hide StreamTied, LastOpcode, Fused, Unfused, PositionsRecorded, LabelsNamed, CodeGenerator.Views, LabelID.IsForwardLabel;
      ghost var words, views := codeBlock.instructions, Views();
      Labelled(l);
      PendingBelow(l);
      PlaceAtEnd(l);
      // Nothing before a label may be fused.
      lastOpcodeID := OpEnd;
      KeepPlace(words, codeBlock.instructions, views, calls, l.name);
      calls := calls + [Place(l.name)];
    }

    lemma Labelled(l: LabelID)
      requires LabelsNamed() && l in labels
      ensures l.name < |labels| && labels[l.name] == l && l.codeBlock == codeBlock && Views()[l.name] == LabelView(l.location, l.unresolvedJumps)
    {
    }

    lemma PendingBelow(l: LabelID)
      requires Valid() && l in labels && l.IsForwardLabel()
      ensures forall j | j in l.unresolvedJumps :: j < |codeBlock.instructions|
      ensures l.name !in Unfused(calls).loc
    {
      hide StreamTied, LastOpcode, Fused, Unfused, PositionsRecorded, ViewsOf;
      ghost var words, views := codeBlock.instructions, Views();
      assert views[l.name] == LabelView(l.location, l.unresolvedJumps);
      forall j | j in l.unresolvedJumps ensures j < |words| {
        PendingWithin(words, views, calls, l.name, j);
      }
      ForwardIffUnplaced(words, views, calls, l.name);
    }

    /** Places a label at the end of the stream, patching the slots that wait for it. */
    method PlaceAtEnd(l: LabelID)
      requires LabelsNamed() && l in labels && forall j | j in l.unresolvedJumps :: j < |codeBlock.instructions|
      modifies codeBlock`instructions, codeBlock`labels, l
      ensures LabelsNamed() && l.location == Some(|codeBlock.instructions|) && |codeBlock.instructions| == |old(codeBlock.instructions)|
      ensures forall j | 0 <= j < |codeBlock.instructions| ::
        codeBlock.instructions[j] == if j in old(l.unresolvedJumps) then Num(|codeBlock.instructions| - j) else old(codeBlock.instructions)[j]
      ensures l.name < |old(Views())| && Views() == old(Views())[l.name := LabelView(Some(|codeBlock.instructions|), old(l.unresolvedJumps))]
    {
      hide ViewsOf;
      l.SetLocation(|codeBlock.instructions|);
    }

    /** Appends an opcode word; its operands follow. */
    method EmitOpcode(op: Op)
      modifies this`lastOpcodeID, codeBlock`instructions
      ensures lastOpcodeID == op && codeBlock.instructions == old(codeBlock.instructions) + [Opc(op)]
    {
      codeBlock.instructions := codeBlock.instructions + [Opc(op)];
      lastOpcodeID := op;
    }

    method AppendOperand(n: int)
      modifies codeBlock`instructions
      ensures codeBlock.instructions == old(codeBlock.instructions) + [Num(n)]
    {
      codeBlock.instructions := codeBlock.instructions + [Num(n)];
    }

    /** Appends the operand of a jump: the distance to `target`, or 0 with the slot recorded. */
    method AppendTarget(target: LabelID)
      modifies codeBlock`instructions, target`unresolvedJumps
      ensures target.location.None? ==>
        codeBlock.instructions == old(codeBlock.instructions) + [Num(0)] &&
        target.unresolvedJumps == old(target.unresolvedJumps) + [|old(codeBlock.instructions)|]
      ensures target.location.Some? ==>
        codeBlock.instructions == old(codeBlock.instructions) + [Num(target.location.value - |old(codeBlock.instructions)|)] &&
        target.unresolvedJumps == old(target.unresolvedJumps)
    {
      var offset := target.OffsetFrom(|codeBlock.instructions|);
      AppendOperand(offset);
    }

    /** After a call's words have been appended, records the call. */
    ghost method Commit(words: seq<Word>, views: seq<LabelView>, c: Call, i: Ins)
      requires LabelsNamed() && PositionsRecorded(|words|)
      requires StreamTied(words, views, calls) && ReadyFor(calls, views, c) && !c.Place?
      requires i == PlainJump(c, Fused(calls).program.loc)
      requires (c.JumpIfTrue? || c.JumpIfFalse?) && Fused(calls).tight && |Fused(calls).program.ins| > 0 ==>
        TryFuse(Fused(calls).program.ins[|Fused(calls).program.ins| - 1], c, Fused(calls).program.loc).None?
      requires codeBlock.instructions == words + Encode(Retarget(i, StoredDistance(views, i, |words| + Width(i) - 1)))
      requires Views() == Recorded(views, i, |words| + Width(i) - 1)
      requires lastOpcodeID == OpOf(i)
      modifies this`calls
      ensures Valid() && calls == old(calls) + [c]
    {
      hide StreamTied, LastOpcode, Fused, Unfused, PositionsRecorded, Encode, Width, ReadyFor, Recorded, StoredDistance, LabelsNamed;
      KeepAppend(words, views, calls, c);
      WidthPositive(i);
      RetargetedShape(i, StoredDistance(views, i, |words| + Width(i) - 1));
      EncodeLength(Retarget(i, StoredDistance(views, i, |words| + Width(i) - 1)));
      PositionsGrow(|words|, |codeBlock.instructions|);
      calls := calls + [c];
    }

    /** An opcode and its operands, none of them a jump distance. */
    method EmitOperands(op: Op, operands: seq<int>, ghost i: Ins)
      requires Valid() && op == OpOf(i) && operands == Operands(i) && !i.Jumps()
      modifies this`calls, this`lastOpcodeID, codeBlock`instructions
      ensures Valid() && calls == old(calls) + [Emit(i)]
      ensures codeBlock.instructions == old(codeBlock.instructions) + [Opc(op)] + Nums(operands)
    {
      hide StreamTied, LastOpcode, Fused, Unfused, PositionsRecorded, LabelsNamed, Operands, OpOf, Width;
      ghost var words, views := codeBlock.instructions, Views();
      EmitOpcode(op);
      codeBlock.instructions := codeBlock.instructions + Nums(operands);
      assert codeBlock.instructions == words + Encode(i);
      hide Encode;
      Commit(words, views, Emit(i), i);
    }

    method EmitPlain(op: nat, dst: Reg, args: seq<Reg>, imms: seq<int>)
      requires Valid()
      modifies this`calls, this`lastOpcodeID, codeBlock`instructions
      ensures Valid() && calls == old(calls) + [Emit(Plain(op, dst, args, imms))]
    {
      EmitOperands(OpPlain(op, |args|, |imms|), [dst] + args + imms, Plain(op, dst, args, imms));
    }

    /** A unary instruction; some opcodes are followed by the type of the operand. */
    method EmitUnaryOp(op: Op, dst: RegisterID, src: RegisterID, type_: int)
      requires Valid() && IsUnary(op)
      modifies this`calls, this`lastOpcodeID, codeBlock`instructions
      ensures Valid() && calls == old(calls) + [Emit(UnaryIns(op, dst.index, src.index, type_))]
      ensures codeBlock.instructions == old(codeBlock.instructions) + [Opc(op)] + Nums([dst.index, src.index] + Types(op, type_))
      ensures |Unfused(calls).ins| > 0 && ComputesUnary(LastOf(calls), op, dst.index, src.index, Types(op, type_))
    {
      hide Valid, UnaryIns, IsUnary, ComputesUnary, LastOf, Unfused, OpOf, Operands, Ins.Jumps;
      UnaryMeans(calls, op, dst.index, src.index, type_);
      var operands := [dst.index, src.index];
      if op.OpPlain? && op.imms == 1 {
        operands := operands + [type_];
      }
      EmitOperands(op, operands, UnaryIns(op, dst.index, src.index, type_));
    }

    /** A binary instruction; some opcodes are followed by the types of the operands. */
    method EmitBinaryOp(op: Op, dst: RegisterID, src1: RegisterID, src2: RegisterID, types: int)
      requires Valid() && IsBinary(op)
      modifies this`calls, this`lastOpcodeID, codeBlock`instructions
      ensures Valid() && calls == old(calls) + [Emit(BinaryIns(op, dst.index, src1.index, src2.index, types))]
      ensures codeBlock.instructions == old(codeBlock.instructions) + [Opc(op)] + Nums([dst.index, src1.index, src2.index] + Types(op, types))
      ensures |Unfused(calls).ins| > 0 && ComputesBinary(LastOf(calls), op, dst.index, src1.index, src2.index, Types(op, types))
    {
      hide Valid, BinaryIns, IsBinary, ComputesBinary, LastOf, Unfused, OpOf, Operands, Ins.Jumps;
      BinaryMeans(calls, op, dst.index, src1.index, src2.index, types);
      var operands := [dst.index, src1.index, src2.index];
      if op.OpPlain? && op.imms == 1 {
        operands := operands + [types];
      }
      EmitOperands(op, operands, BinaryIns(op, dst.index, src1.index, src2.index, types));
    }

    /** The last word of a jump.  `prefix` are the words before the jump `i`. */
    method EmitTarget(target: LabelID, ghost prefix: seq<Word>, ghost views: seq<LabelView>, ghost i: Ins)
      requires LabelsNamed() && target in labels && views == Views()
      requires i.Jumps() && i.target == target.name && |Encode(i)| == Width(i)
      requires codeBlock.instructions == prefix + Encode(i)[..Width(i) - 1]
      modifies codeBlock`instructions, target`unresolvedJumps
      ensures var slot := |prefix| + Width(i) - 1;
        && codeBlock.instructions == prefix + Encode(Retarget(i, StoredDistance(views, i, slot)))
        && Views() == Recorded(views, i, slot)
    {
      hide Encode, Width, Retarget, Ins.Jumps;
      WidthPositive(i);
      assert views[target.name] == LabelView(target.location, target.unresolvedJumps);
      ghost var slot := |prefix| + Width(i) - 1;
      EncodeTarget(i, StoredDistance(views, i, slot));
      AppendTarget(target);
      assert Views() == Recorded(views, i, slot);
    }

    /** A jump that absorbs nothing: its opcode, its other operands, its target. */
    method EmitJumpWith(op: Op, operands: seq<int>, target: LabelID, ghost c: Call, ghost i: Ins)
      requires Valid() && target in labels && !c.Place? && ReadyFor(calls, Views(), c)
      requires i == PlainJump(c, Fused(calls).program.loc) && i.Jumps() && i.target == target.name
      requires op == OpOf(i) && operands + [target.name] == Operands(i)
      requires (c.JumpIfTrue? || c.JumpIfFalse?) && Fused(calls).tight && |Fused(calls).program.ins| > 0 ==>
        TryFuse(Fused(calls).program.ins[|Fused(calls).program.ins| - 1], c, Fused(calls).program.loc).None?
      modifies this`calls, this`lastOpcodeID, codeBlock`instructions, target`unresolvedJumps
      ensures Valid() && calls == old(calls) + [c]
    {
      hide StreamTied, LastOpcode, Fused, Unfused, PositionsRecorded, ReadyFor, TryFuse, PlainJump, Operands, OpOf, Ins.Jumps;
      ghost var words, views := codeBlock.instructions, Views();
      EmitOpcode(op);
      codeBlock.instructions := codeBlock.instructions + Nums(operands);
      assert |Encode(i)| == Width(i) && codeBlock.instructions == words + Encode(i)[..Width(i) - 1];
      hide Encode, Width;
      EmitTarget(target, words, views, i);
      Commit(words, views, c, i);
    }

    method EmitJump(target: LabelID)
      requires Valid() && target in labels
      modifies this`calls, this`lastOpcodeID, codeBlock`instructions, target`unresolvedJumps
      ensures Valid() && calls == old(calls) + [Jump(target.name)]
      ensures |Unfused(calls).ins| > 0 && JumpsOn(LastOf(calls), None, true, target.name, !target.IsForwardLabel())
    {
      hide JumpsOn, StreamTied, LastOpcode, Fused, Unfused, PositionsRecorded;
      ghost var c := Jump(target.name);
      TargetReady(target, c);
      JumpMeans(target, c);
      EmitJumpWith(if target.IsForwardLabel() then OpJmp else OpLoop, [], target, c,
                   if target.IsForwardLabel() then Jmp(target.name) else Loop(target.name));
    }

    /** A jump emitted as it is: `jmp_scopes`, `jsr` or `next_pname`. */
    method EmitScopedJump(op: Op, operands: seq<int>, target: LabelID, ghost i: Ins)
      requires Valid() && target in labels
      requires (i.JmpScopes? || i.Jsr? || i.NextName?) && i.target == target.name
      requires op == OpOf(i) && operands + [target.name] == Operands(i)
      modifies this`calls, this`lastOpcodeID, codeBlock`instructions, target`unresolvedJumps
      ensures Valid() && calls == old(calls) + [Emit(i)]
    {
      hide StreamTied, LastOpcode, Fused, Unfused, PositionsRecorded, Operands, OpOf;
      EmitJumpWith(op, operands, target, Emit(i), i);
    }

    method EmitNextPropertyName(dst: RegisterID, iter: RegisterID, target: LabelID)
      requires Valid() && target in labels
      modifies this`calls, this`lastOpcodeID, codeBlock`instructions, target`unresolvedJumps
      ensures Valid() && calls == old(calls) + [Emit(NextName(dst.index, iter.index, target.name))]
      ensures |Unfused(calls).ins| > 0 && Enumerates(LastOf(calls), dst.index, iter.index, target.name)
    {
      hide *;
      NameMeans(calls, dst.index, iter.index, target.name);
      NameOperands(dst.index, iter.index, target.name);
      EmitScopedJump(OpNextName, [dst.index, iter.index], target, NextName(dst.index, iter.index, target.name));
    }

    /** After a jump has absorbed the last instruction, records the call. */
    ghost method CommitFuse(words: seq<Word>, views: seq<LabelView>, c: Call, last: Ins, jump: Ins)
      requires LabelsNamed() && PositionsRecorded(|words|)
      requires StreamTied(words, views, calls) && ReadyFor(calls, views, c) && !c.Place?
      requires LastIs(calls, last) && TryFuse(last, c, Fused(calls).program.loc) == Some(jump)
      requires Width(last) <= |words|
      requires codeBlock.instructions == words[..|words| - Width(last)] + Encode(Retarget(jump, StoredDistance(views, jump, |words| - 1)))
      requires Views() == Recorded(views, jump, |words| - 1)
      requires lastOpcodeID == OpOf(jump)
      modifies this`calls
      ensures Valid() && calls == old(calls) + [c]
    {
      hide StreamTied, LastOpcode, Fused, Unfused, PositionsRecorded, Encode, Width, TryFuse, ReadyFor, Recorded, StoredDistance, LabelsNamed;
      KeepFuse(words, views, calls, c);
      WidthPositive(last);
      EncodeLength(Retarget(jump, StoredDistance(views, jump, |words| - 1)));
      RetargetedShape(jump, StoredDistance(views, jump, |words| - 1));
      calls := calls + [c];
    }

    method RetrieveLastBinaryOp() returns (dst: int, src1: int, src2: int)
      requires Valid() && lastOpcodeID in {OpLess, OpLessEq}
      ensures LastIs(calls, Build(lastOpcodeID, [dst, src1, src2]).value) && |codeBlock.instructions| >= 4
    {
      hide *;
      Opened();
      OperandCount(lastOpcodeID);
      LastOperands(codeBlock.instructions, Views(), calls);
      var size := |codeBlock.instructions|;
      dst := Unword(codeBlock.instructions[size - 3]);
      src1 := Unword(codeBlock.instructions[size - 2]);
      src2 := Unword(codeBlock.instructions[size - 1]);
      assert Fetch(codeBlock.instructions, size - 3, 3) == [dst, src1, src2];
    }

    method RetrieveLastUnaryOp() returns (dst: int, src: int)
      requires Valid() && lastOpcodeID in {OpNot, OpEqNull, OpNeqNull}
      ensures LastIs(calls, Build(lastOpcodeID, [dst, src]).value) && |codeBlock.instructions| >= 3
    {
      hide *;
      Opened();
      OperandCount(lastOpcodeID);
      LastOperands(codeBlock.instructions, Views(), calls);
      var size := |codeBlock.instructions|;
      dst := Unword(codeBlock.instructions[size - 2]);
      src := Unword(codeBlock.instructions[size - 1]);
      assert Fetch(codeBlock.instructions, size - 2, 2) == [dst, src];
    }

    method RewindBinaryOp()
      requires |codeBlock.instructions| >= 4
      modifies codeBlock`instructions
      ensures codeBlock.instructions == old(codeBlock.instructions)[..|old(codeBlock.instructions)| - 4]
    {
      codeBlock.instructions := codeBlock.instructions[..|codeBlock.instructions| - 4];
    }

    method RewindUnaryOp()
      requires |codeBlock.instructions| >= 3
      modifies codeBlock`instructions
      ensures codeBlock.instructions == old(codeBlock.instructions)[..|old(codeBlock.instructions)| - 3]
    {
      codeBlock.instructions := codeBlock.instructions[..|codeBlock.instructions| - 3];
    }

    method EmitBinaryPart(op: Op, src1: int, src2: int)
      modifies this`lastOpcodeID, codeBlock`instructions
      ensures codeBlock.instructions == old(codeBlock.instructions) + [Opc(op), Num(src1), Num(src2)] && lastOpcodeID == op
    {
      EmitOpcode(op);
      AppendOperand(src1);
      AppendOperand(src2);
    }

    method EmitUnaryPart(op: Op, src: int)
      modifies this`lastOpcodeID, codeBlock`instructions
      ensures codeBlock.instructions == old(codeBlock.instructions) + [Opc(op), Num(src)] && lastOpcodeID == op
    {
      EmitOpcode(op);
      AppendOperand(src);
    }

    /** Replaces the last, binary, instruction by a jump over the same operands. */
    method FuseBinaryOp(op: Op, src1: int, src2: int, target: LabelID, ghost c: Call, ghost last: Ins, ghost jump: Ins)
      requires Valid() && target in labels && |codeBlock.instructions| >= 4
      requires ReadyFor(calls, Views(), c) && !c.Place?
      requires LastIs(calls, last) && TryFuse(last, c, Fused(calls).program.loc) == Some(jump)
      requires (last.Less? || last.LessEq?) && op == OpOf(jump) && Operands(jump) == [src1, src2, target.name] && jump.Jumps() && jump.target == target.name
      modifies this`calls, this`lastOpcodeID, codeBlock`instructions, target`unresolvedJumps
      ensures Valid() && calls == old(calls) + [c]
    {
      hide *;
      Opened();
      ghost var words, views := codeBlock.instructions, Views();
      BinaryShape(last, jump);
      ghost var rest := words[..|words| - 4];
      RewindBinaryOp();
      EmitBinaryPart(op, src1, src2);
      assert codeBlock.instructions == rest + Encode(jump)[..3];
      EmitTarget(target, rest, views, jump);
      CommitFuse(words, views, c, last, jump);
    }

    method FuseUnaryOp(op: Op, src: int, target: LabelID, ghost c: Call, ghost last: Ins, ghost jump: Ins)
      requires Valid() && target in labels && |codeBlock.instructions| >= 3
      requires ReadyFor(calls, Views(), c) && !c.Place?
      requires LastIs(calls, last) && TryFuse(last, c, Fused(calls).program.loc) == Some(jump)
      requires (last.Not? || last.EqNull? || last.NeqNull?) && op == OpOf(jump) && Operands(jump) == [src, target.name] && jump.Jumps() && jump.target == target.name
      modifies this`calls, this`lastOpcodeID, codeBlock`instructions, target`unresolvedJumps
      ensures Valid() && calls == old(calls) + [c]
    {
      hide *;
      Opened();
      ghost var words, views := codeBlock.instructions, Views();
      UnaryShape(last, jump);
      ghost var rest := words[..|words| - 3];
      RewindUnaryOp();
      EmitUnaryPart(op, src);
      assert codeBlock.instructions == rest + Encode(jump)[..2];
      EmitTarget(target, rest, views, jump);
      CommitFuse(words, views, c, last, jump);
    }

    /** Absorbs the last comparison if it computed the unreferenced temporary `cond`. */
    method FuseIfBinary(op: Op, cond: RegisterID, target: LabelID, ghost c: Call) returns (fused: bool)
      requires Valid() && target in labels && lastOpcodeID in {OpLess, OpLessEq}
      requires (c.JumpIfTrue? || c.JumpIfFalse?) && c.cond == cond.index && c.l == target.name && ReadyFor(calls, Views(), c)
      requires c.free == (cond.isTemporary && cond.refCount == 0)
      requires c.JumpIfTrue? ==> target.location.Some? && op == if lastOpcodeID == OpLess then OpLoopIfLess else OpLoopIfLessEq
      requires c.JumpIfFalse? ==> target.location.None? && op == OpJNLess && lastOpcodeID == OpLess
      modifies this`calls, this`lastOpcodeID, codeBlock`instructions, target`unresolvedJumps
      ensures Valid()
      ensures fused ==> calls == old(calls) + [c]
      ensures !fused ==> calls == old(calls) && lastOpcodeID == old(lastOpcodeID) && AbsorbsNothing(calls, lastOpcodeID, c, target.location.None?)
    {
      hide Valid, LastOpcode, Fused, Unfused, ReadyFor, TryFuse, OpOf, LastIs, AbsorbsNothing;
      TargetKnown(target);
      var dst, src1, src2 := RetrieveLastBinaryOp();
      fused := cond.index == dst && cond.isTemporary && cond.refCount == 0;
      ghost var last := Build(lastOpcodeID, [dst, src1, src2]).value;
      if !fused {
        OtherCondition(calls, lastOpcodeID, last, c, target.location.None?);
      } else {
        FusesBinary(lastOpcodeID, op, src1, src2, c, Fused(calls).program.loc);
        FuseBinaryOp(op, src1, src2, target, c, last, Build(op, [src1, src2, c.l]).value);
      }
    }

    method FuseIfUnary(op: Op, cond: RegisterID, target: LabelID, ghost c: Call) returns (fused: bool)
      requires Valid() && target in labels && lastOpcodeID in {OpNot, OpEqNull, OpNeqNull} && target.location.None?
      requires (c.JumpIfTrue? || c.JumpIfFalse?) && c.cond == cond.index && c.l == target.name && ReadyFor(calls, Views(), c)
      requires c.free == (cond.isTemporary && cond.refCount == 0)
      requires c.JumpIfTrue? ==> lastOpcodeID != OpNot && op == if lastOpcodeID == OpEqNull then OpJEqNull else OpJNeqNull
      requires c.JumpIfFalse? ==>
        op == if lastOpcodeID == OpNot then OpJTrue else if lastOpcodeID == OpEqNull then OpJNeqNull else OpJEqNull
      modifies this`calls, this`lastOpcodeID, codeBlock`instructions, target`unresolvedJumps
      ensures Valid()
      ensures fused ==> calls == old(calls) + [c]
      ensures !fused ==> calls == old(calls) && lastOpcodeID == old(lastOpcodeID) && AbsorbsNothing(calls, lastOpcodeID, c, target.location.None?)
    {
      hide Valid, LastOpcode, Fused, Unfused, ReadyFor, TryFuse, OpOf, LastIs, AbsorbsNothing;
      TargetKnown(target);
      var dst, src := RetrieveLastUnaryOp();
      fused := cond.index == dst && cond.isTemporary && cond.refCount == 0;
      ghost var last := Build(lastOpcodeID, [dst, src]).value;
      if !fused {
        OtherCondition(calls, lastOpcodeID, last, c, target.location.None?);
      } else {
        FusesUnary(lastOpcodeID, op, src, c, Fused(calls).program.loc);
        FuseUnaryOp(op, src, target, c, last, Build(op, [src, c.l]).value);
      }
    }

    /** The conditional jump that is emitted when nothing is absorbed. */
    method EmitConditional(op: Op, cond: RegisterID, target: LabelID, ghost c: Call)
      requires Valid() && target in labels && AbsorbsNothing(calls, lastOpcodeID, c, target.location.None?)
      requires (c.JumpIfTrue? || c.JumpIfFalse?) && c.cond == cond.index && c.l == target.name && ReadyFor(calls, Views(), c)
      requires op == if c.JumpIfFalse? then OpJFalse else if target.location.None? then OpJTrue else OpLoopIfTrue
      modifies this`calls, this`lastOpcodeID, codeBlock`instructions, target`unresolvedJumps
      ensures Valid() && calls == old(calls) + [c]
    {
      hide Valid, LastOpcode, Fused, Unfused, ReadyFor, AbsorbsNothing, TryFuse, PlainJump;
      Opened();
      TargetKnown(target);
      NothingFused(codeBlock.instructions, Views(), calls, c);
      ConditionalShape(op, c, Fused(calls).program.loc);
      EmitJumpWith(op, [cond.index], target, c, PlainJump(c, Fused(calls).program.loc));
    }

    method EmitJumpIfTrue(cond: RegisterID, target: LabelID)
      requires Valid() && target in labels
      modifies this`calls, this`lastOpcodeID, codeBlock`instructions, target`unresolvedJumps
      ensures Valid() && calls == old(calls) + [JumpIfTrue(cond.index, cond.isTemporary && cond.refCount == 0, target.name)]
      ensures |Unfused(calls).ins| > 0 && JumpsOn(LastOf(calls), Some(cond.index), true, target.name, !target.IsForwardLabel())
    {
      hide JumpsOn, Valid, ViewsOf, CodeGenerator.Views, LastOpcode, Fused, Unfused, ReadyFor, AbsorbsNothing;
      ghost var c := JumpIfTrue(cond.index, cond.isTemporary && cond.refCount == 0, target.name);
      TargetReady(target, c);
      JumpMeans(target, c);
      OpcodeAbsorbsNothing(calls, lastOpcodeID, c, target.IsForwardLabel());
      var fused := false;
      if lastOpcodeID == OpLess && !target.IsForwardLabel() {
        fused := FuseIfBinary(OpLoopIfLess, cond, target, c);
      } else if lastOpcodeID == OpLessEq && !target.IsForwardLabel() {
        fused := FuseIfBinary(OpLoopIfLessEq, cond, target, c);
      } else if lastOpcodeID == OpEqNull && target.IsForwardLabel() {
        fused := FuseIfUnary(OpJEqNull, cond, target, c);
      } else if lastOpcodeID == OpNeqNull && target.IsForwardLabel() {
        fused := FuseIfUnary(OpJNeqNull, cond, target, c);
      }
      if !fused {
        TargetReady(target, c);
        EmitConditional(if target.IsForwardLabel() then OpJTrue else OpLoopIfTrue, cond, target, c);
      }
    }

    method EmitJumpIfFalse(cond: RegisterID, target: LabelID)
      requires Valid() && target in labels && target.IsForwardLabel()
      modifies this`calls, this`lastOpcodeID, codeBlock`instructions, target`unresolvedJumps
      ensures Valid() && calls == old(calls) + [JumpIfFalse(cond.index, cond.isTemporary && cond.refCount == 0, target.name)]
      ensures |Unfused(calls).ins| > 0 && JumpsOn(LastOf(calls), Some(cond.index), false, target.name, !target.IsForwardLabel())
    {
      hide JumpsOn, Valid, ViewsOf, CodeGenerator.Views, LastOpcode, Fused, Unfused, ReadyFor, AbsorbsNothing;
      ghost var c := JumpIfFalse(cond.index, cond.isTemporary && cond.refCount == 0, target.name);
      TargetReady(target, c);
      JumpMeans(target, c);
      OpcodeAbsorbsNothing(calls, lastOpcodeID, c, target.IsForwardLabel());
      var fused := false;
      if lastOpcodeID == OpLess {
        fused := FuseIfBinary(OpJNLess, cond, target, c);
      } else if lastOpcodeID == OpNot {
        fused := FuseIfUnary(OpJTrue, cond, target, c);
      } else if lastOpcodeID == OpEqNull {
        fused := FuseIfUnary(OpJNeqNull, cond, target, c);
      } else if lastOpcodeID == OpNeqNull {
        fused := FuseIfUnary(OpJEqNull, cond, target, c);
      }
      if !fused {
        TargetReady(target, c);
        EmitConditional(OpJFalse, cond, target, c);
      }
    }

    lemma TargetKnown(target: LabelID)
      requires Valid() && target in labels
      ensures target.name < |labels| && target.codeBlock == codeBlock
      ensures target.IsForwardLabel() <==> target.name !in Unfused(calls).loc
      ensures target.IsForwardLabel() <==> target.name !in Fused(calls).program.loc
    {
      hide StreamTied, LastOpcode, Fused, Unfused, PositionsRecorded;
      assert Views()[target.name] == LabelView(target.location, target.unresolvedJumps);
      ForwardIffUnplaced(codeBlock.instructions, Views(), calls, target.name);
    }

    /** What the call means, wherever the generator puts it. */
    lemma JumpMeans(target: LabelID, c: Call)
      requires Valid() && target in labels
      requires (c.JumpIfTrue? || (c.JumpIfFalse? && target.IsForwardLabel()) || c.Jump?) && c.l == target.name
      ensures |Unfused(calls + [c]).ins| > 0
      ensures JumpsOn(LastOf(calls + [c]), if c.Jump? then None else Some(c.cond), !c.JumpIfFalse?, c.l, !target.IsForwardLabel())
    {
      hide JumpsOn, StreamTied, LastOpcode, Fused, Unfused, PositionsRecorded;
      TargetKnown(target);
      LastCall(calls, c);
      PlainJumpsOn(c, Unfused(calls).loc);
    }

    lemma TargetReady(target: LabelID, c: Call)
      requires Valid() && target in labels
      requires c.JumpIfTrue? || (c.JumpIfFalse? && target.IsForwardLabel()) || c.Jump?
      requires c.l == target.name
      ensures ReadyFor(calls, Views(), c)
      ensures target.IsForwardLabel() <==> target.name !in Fused(calls).program.loc
    {
      hide StreamTied, LastOpcode, Fused, Unfused, PositionsRecorded;
      TargetKnown(target);
    }

    // ---------------------------------------------------------- positions

    /** What `emitNode` notes before the node emits its code. */
    method EmitNode(lineNo: int)
      requires Valid()
      modifies this`visits, codeBlock`lineInfo
      ensures Valid() && visits == old(visits) + [LineInfo(|codeBlock.instructions|, lineNo)]
    {
      hide StreamTied, LastOpcode, Fused, Unfused, LabelsNamed, ClampAll;
      var lineInfo := codeBlock.lineInfo;
      if |lineInfo| == 0 || lineInfo[|lineInfo| - 1].lineNumber != lineNo {
        codeBlock.lineInfo := codeBlock.lineInfo + [LineInfo(|codeBlock.instructions|, lineNo)];
      }
      visits := visits + [LineInfo(|codeBlock.instructions|, lineNo)];
      assert visits[..|visits| - 1] == old(visits);
    }

    method EmitExpressionInfo(divot: uint32, startOffset: nat, endOffset: nat)
      requires Valid()
      modifies this`expressions, codeBlock`expressionInfo
      ensures Valid() && expressions == old(expressions) + [Expression(|codeBlock.instructions|, divot, startOffset, endOffset)]
    {
      hide StreamTied, LastOpcode, Fused, Unfused, LabelsNamed, RecordLines, Clamp, Shown, Recovered;
      ghost var e := Expression(|codeBlock.instructions|, divot, startOffset, endOffset);
      var info := RangeInfo(|codeBlock.instructions|, divot, startOffset, endOffset, codeBlock.sourceOffset);
      ClampIs(e, codeBlock.sourceOffset, info);
      codeBlock.expressionInfo := codeBlock.expressionInfo + [info];
      expressions := expressions + [e];
      assert ClampAll(expressions, codeBlock.sourceOffset) == old(codeBlock.expressionInfo) + [info];
    }

    /** The line of the last node begun at or before an instruction. */
    method LineNumberForVPC(firstLine: int, instructionOffset: nat) returns (line: int)
      requires Valid()
      ensures line == LineAt(visits, firstLine, instructionOffset)
      ensures forall n | BegunBy(visits, instructionOffset, n) :: line == if n == 0 then firstLine else visits[n - 1].lineNumber
    {
      hide StreamTied, LastOpcode, Fused, Unfused, LabelsNamed;
      BegunIsLast(visits, firstLine, instructionOffset);
      RecordLinesShape(visits);
      RecordLinesKeepsLines(visits, firstLine, instructionOffset);
      line := LineNumberForOffset(codeBlock.lineInfo, firstLine, instructionOffset);
    }

    /** The extent of the last expression noted at or before an instruction, as far as it
        fits, in a stream whose offsets fit. */
    method ExpressionRangeForVPC(instructionOffset: nat) returns (range: Range)
      requires Valid()
      ensures |codeBlock.instructions| <= MAX_DIVOT ==>
        var k := ExpressionAt(expressions, instructionOffset);
        && range == (if k < 0 then Range(0, 0, 0) else Recovered(expressions[k], codeBlock.sourceOffset))
        && (k >= 0 ==>
              (IsExtentOf(range, expressions[k]) <==>
                 Near(expressions[k], codeBlock.sourceOffset) && expressions[k].start < 0x80 && expressions[k].end < 0x80))
    {
      hide StreamTied, LastOpcode, Fused, Unfused, LabelsNamed, Clamp, Shown, Recovered, Halve, RecordAt, IsExtentOf, Near;
      range := ExpressionRangeForOffset(codeBlock.expressionInfo, codeBlock.sourceOffset, instructionOffset);
      if |codeBlock.instructions| <= MAX_DIVOT {
        ShortStream(expressions, codeBlock.sourceOffset, instructionOffset);
        ghost var k := ExpressionAt(expressions, instructionOffset);
        if k >= 0 {
          ClampRecovered(expressions[k], codeBlock.sourceOffset);
          RecoveredWholeIff(expressions[k], codeBlock.sourceOffset);
        }
      }
    }

    // ------------------------------------------------------------- scopes

    /** The depth counters agree with the context stack. */
    ghost predicate ContextsCounted()
      reads this`scopeContextStack, this`finallyDepth, this`dynamicScopeDepth, this`labels
    {
      && finallyDepth == FinallyCount(scopeContextStack)
      && finallyDepth + dynamicScopeDepth == |scopeContextStack|
      && (forall c | c in scopeContextStack && c.FinallyContext? :: c.finallyAddr in labels)
    }

    function ScopeDepth(): nat
      reads this`finallyDepth, this`dynamicScopeDepth
    {
      dynamicScopeDepth + finallyDepth
    }

    method EmitJmpScopes(count: nat, target: LabelID)
      requires Valid() && target in labels
      modifies this`calls, this`lastOpcodeID, codeBlock`instructions, target`unresolvedJumps
      ensures Valid() && calls == old(calls) + [Emit(JmpScopes(count, target.name))]
    {
      EmitScopedJump(OpJmpScopes, [count], target, JmpScopes(count, target.name));
    }

    method EmitJumpSubroutine(retAddrDst: Reg, finally: LabelID)
      requires Valid() && finally in labels
      modifies this`calls, this`lastOpcodeID, codeBlock`instructions, finally`unresolvedJumps
      ensures Valid() && calls == old(calls) + [Emit(Jsr(retAddrDst, finally.name))]
      ensures |Unfused(calls).ins| > 0 && CallsAt(LastOf(calls), retAddrDst, finally.name)
    {
      hide Valid, Unfused, LastOf, CallsAt;
      EmitMeans(calls, Jsr(retAddrDst, finally.name));
      EmitScopedJump(OpJsr, [retAddrDst], finally, Jsr(retAddrDst, finally.name));
    }

    method EmitSubroutineReturn(retAddrSrc: Reg)
      requires Valid()
      modifies this`calls, this`lastOpcodeID, codeBlock`instructions
      ensures Valid() && calls == old(calls) + [Emit(Sret(retAddrSrc))]
      ensures |Unfused(calls).ins| > 0 && ReturnsBy(LastOf(calls), retAddrSrc)
    {
      hide Valid, Unfused, LastOf, ReturnsBy;
      EmitMeans(calls, Sret(retAddrSrc));
      EmitOperands(OpSret, [retAddrSrc], Sret(retAddrSrc));
    }

    method EmitUnaryNoDstOp(op: Op, src: RegisterID, ghost i: Ins)
      requires Valid() && op == OpPushScope && i == PushScope(src.index)
      modifies this`calls, this`lastOpcodeID, codeBlock`instructions
      ensures Valid() && calls == old(calls) + [Emit(i)]
    {
      EmitOperands(op, [src.index], i);
    }

    method NoteScope()
      requires ContextsCounted()
      modifies this`scopeContextStack, this`dynamicScopeDepth
      ensures ContextsCounted() && scopeContextStack == old(scopeContextStack) + [ScopeContext]
    {
      OneMoreContext(scopeContextStack, ScopeContext);
      scopeContextStack := scopeContextStack + [ScopeContext];
      dynamicScopeDepth := dynamicScopeDepth + 1;
    }

    method EmitPushScope(scope: RegisterID)
      requires Valid() && ContextsCounted()
      modifies this`calls, this`lastOpcodeID, this`scopeContextStack, this`dynamicScopeDepth, codeBlock`instructions
      ensures Valid() && ContextsCounted() && calls == old(calls) + [Emit(PushScope(scope.index))]
      ensures |Unfused(calls).ins| > 0 && Pushes(LastOf(calls), scope.index)
      ensures scopeContextStack == old(scopeContextStack) + [ScopeContext]
    {
      hide *;
      NoteScope();
      EmitMeans(calls, PushScope(scope.index));
      EmitUnaryNoDstOp(OpPushScope, scope, PushScope(scope.index));
    }

    method EmitPopScope()
      requires Valid() && ContextsCounted()
      requires |scopeContextStack| > 0 && scopeContextStack[|scopeContextStack| - 1].ScopeContext?
      modifies this`calls, this`lastOpcodeID, this`scopeContextStack, this`dynamicScopeDepth, codeBlock`instructions
      ensures Valid() && ContextsCounted() && calls == old(calls) + [Emit(PopScope)]
      ensures |Unfused(calls).ins| > 0 && Pops(LastOf(calls))
      ensures scopeContextStack == old(scopeContextStack)[..|old(scopeContextStack)| - 1]
    {
      hide Valid, Unfused, LastOf, Pops;
      EmitMeans(calls, PopScope);
      EmitOperands(OpPopScope, [], PopScope);
      ScopesBelowFinally(scopeContextStack);
      scopeContextStack := scopeContextStack[..|scopeContextStack| - 1];
      dynamicScopeDepth := dynamicScopeDepth - 1;
    }

    method PushFinallyContext(target: LabelID, retAddrDst: RegisterID)
      requires ContextsCounted() && target in labels
      modifies this`scopeContextStack, this`finallyDepth
      ensures ContextsCounted()
      ensures scopeContextStack == old(scopeContextStack) + [FinallyContext(target, retAddrDst.index)]
    {
      scopeContextStack := scopeContextStack + [FinallyContext(target, retAddrDst.index)];
      finallyDepth := finallyDepth + 1;
      assert scopeContextStack[..|scopeContextStack| - 1] == old(scopeContextStack);
    }

    method PopFinallyContext()
      requires ContextsCounted()
      requires |scopeContextStack| > 0 && scopeContextStack[|scopeContextStack| - 1].FinallyContext?
      modifies this`scopeContextStack, this`finallyDepth
      ensures ContextsCounted()
      ensures scopeContextStack == old(scopeContextStack)[..|old(scopeContextStack)| - 1]
    {
      scopeContextStack := scopeContextStack[..|scopeContextStack| - 1];
      finallyDepth := finallyDepth - 1;
    }

    /** Reads the context at a position that may lie just before the stack, where it
        finds anything. */
    method ReadIsFinally(position: int) returns (isFinallyBlock: bool)
      requires -1 <= position < |scopeContextStack|
      ensures position >= 0 ==> isFinallyBlock == scopeContextStack[position].FinallyContext?
    {
      if position < 0 {
        isFinallyBlock := *;
      } else {
        isFinallyBlock := scopeContextStack[position].FinallyContext?;
      }
    }

    /** How many dynamic scopes lie above the nearest finally block, or the bottom. */
    method CountNormalScopes(topScope: int, bottomScope: int) returns (count: nat)
      requires -1 <= bottomScope <= topScope < |scopeContextStack|
      ensures count == Normals(ContextsOf(scopeContextStack), topScope + 1, bottomScope + 1)
      ensures bottomScope < topScope - count ==> scopeContextStack[topScope - count].FinallyContext?
    {
      ghost var cs := ContextsOf(scopeContextStack);
      count := 0;
      var top := topScope;
      while top > bottomScope
        invariant bottomScope <= top == topScope - count
        invariant Normals(cs, topScope + 1, bottomScope + 1) == count + Normals(cs, top + 1, bottomScope + 1)
      {
        if scopeContextStack[top].FinallyContext? {
          break;
        }
        count := count + 1;
        top := top - 1;
      }
    }

    /** Pops scopes and falls through, by a jump to what follows. */
    method EmitPopToNext(count: nat)
      requires Valid() && ContextsCounted()
      modifies this`calls, this`lastOpcodeID, this`labels, codeBlock`instructions, codeBlock`labels
      ensures Valid() && ContextsCounted() && old(labels) <= labels
      ensures |labels| == |old(labels)| + 1 && fresh(labels[|old(labels)|])
      ensures calls == old(calls) + [Emit(JmpScopes(count, |old(labels)|)), Place(|old(labels)|)]
    {
      hide Valid, FinallyCount, OpOf, Operands;
      var nextInsn := NewLabel();
      EmitJmpScopes(count, nextInsn);
      EmitLabel(nextInsn);
    }

    /** Calls the finally block at `topScope` and those directly below it. */
    method EmitFinallyBlocks(topScope: int, bottomScope: int, ghost target: Label) returns (top: int)
      requires Valid() && ContextsCounted()
      requires -1 <= bottomScope < topScope < |scopeContextStack| && scopeContextStack[topScope].FinallyContext?
      modifies this`calls, this`lastOpcodeID, codeBlock`instructions, labels
      ensures Valid() && ContextsCounted() && bottomScope <= top < topScope
      ensures calls + UnwindCalls(ContextsOf(scopeContextStack), top + 1, bottomScope + 1, target, |labels|) ==
        old(calls) + UnwindCalls(ContextsOf(scopeContextStack), topScope + 1, bottomScope + 1, target, |labels|)
    {
      hide Valid, UnwindCalls, Normals, FinallyCount;
      top := topScope;
      ghost var cs, total := ContextsOf(scopeContextStack), UnwindCalls(ContextsOf(scopeContextStack), topScope + 1, bottomScope + 1, target, |labels|);
      var more := true;
      while more
        invariant bottomScope <= top <= topScope && (more <==> top == topScope || (top > bottomScope && scopeContextStack[top].FinallyContext?))
        invariant Valid() && ContextsCounted()
        invariant calls + UnwindCalls(cs, top + 1, bottomScope + 1, target, |labels|) == old(calls) + total
        decreases top
      {
        UnwindFinally(cs, top + 1, bottomScope + 1, target, |labels|);
        EmitJumpSubroutine(scopeContextStack[top].retAddrDst, scopeContextStack[top].finallyAddr);
        top := top - 1;
        var isFinallyBlock := ReadIsFinally(top);
        more := isFinallyBlock && top > bottomScope;
      }
    }

    /** Pops the scopes at `topScope` and directly below it, if there are any: on the way
        to the next finally block, or, when there is none left, with a jump to the target. */
    method EmitNormalScopes(target: LabelID, topScope: int, bottomScope: int) returns (top: int, arrived: bool)
      requires Valid() && ContextsCounted() && target in labels
      requires -1 <= bottomScope < topScope < |scopeContextStack|
      modifies this`calls, this`lastOpcodeID, this`labels, codeBlock`instructions, codeBlock`labels, target`unresolvedJumps
      ensures Valid() && ContextsCounted() && old(labels) <= labels
      ensures forall k | |old(labels)| <= k < |labels| :: fresh(labels[k])
      ensures arrived ==>
        calls == old(calls) + UnwindCalls(ContextsOf(scopeContextStack), topScope + 1, bottomScope + 1, target.name, |old(labels)|)
      ensures !arrived ==>
        && bottomScope < top <= topScope && scopeContextStack[top].FinallyContext?
        && calls + UnwindCalls(ContextsOf(scopeContextStack), top + 1, bottomScope + 1, target.name, |labels|) ==
             old(calls) + UnwindCalls(ContextsOf(scopeContextStack), topScope + 1, bottomScope + 1, target.name, |old(labels)|)
    {
      hide *;
      top, arrived := topScope, false;
      var nNormalScopes := CountNormalScopes(top, bottomScope);
      if nNormalScopes > 0 {
        UnwindNormals(ContextsOf(scopeContextStack), top + 1, bottomScope + 1, target.name, |labels|);
        top := top - nNormalScopes;
        if top == bottomScope {
          EmitJmpScopes(nNormalScopes, target);
          arrived := true;
        } else {
          EmitPopToNext(nNormalScopes);
        }
      }
    }

    /** Leaves the contexts above `bottomScope`, which may be -1, just before the stack. */
    method EmitComplexJumpScopes(target: LabelID, topScope: int, bottomScope: int)
      requires Valid() && ContextsCounted() && target in labels
      requires -1 <= bottomScope <= topScope == |scopeContextStack| - 1
      modifies this`calls, this`lastOpcodeID, this`labels, codeBlock`instructions, codeBlock`labels, labels
      ensures Valid() && ContextsCounted() && old(labels) <= labels
      ensures calls == old(calls) + UnwindCalls(ContextsOf(scopeContextStack), topScope + 1, bottomScope + 1, target.name, |old(labels)|)
    {
      hide *;
      var top := topScope;
      ghost var cs, l := ContextsOf(scopeContextStack), target.name;
      ghost var total := UnwindCalls(cs, topScope + 1, bottomScope + 1, l, |labels|);
      while top > bottomScope
        invariant bottomScope <= top < |scopeContextStack|
        invariant Valid() && ContextsCounted() && old(labels) <= labels
        invariant forall k | |old(labels)| <= k < |labels| :: fresh(labels[k])
        invariant calls + UnwindCalls(cs, top + 1, bottomScope + 1, l, |labels|) == old(calls) + total
      {
        var arrived;
        top, arrived := EmitNormalScopes(target, top, bottomScope);
        if arrived {
          return;
        }
        top := EmitFinallyBlocks(top, bottomScope, l);
      }
      UnwindNothing(cs, top + 1, l, |labels|);
      EmitJump(target);
    }

    /** Jumps out to `targetScopeDepth`, popping scopes and running finally blocks. */
    method EmitJumpScopes(target: LabelID, targetScopeDepth: nat)
      requires Valid() && ContextsCounted() && target in labels && target.IsForwardLabel()
      requires targetScopeDepth <= ScopeDepth()
      modifies this`calls, this`lastOpcodeID, this`labels, codeBlock`instructions, codeBlock`labels, labels
      ensures Valid() && ContextsCounted() && old(labels) <= labels
      ensures calls == old(calls) + UnwindCalls(ContextsOf(scopeContextStack), |scopeContextStack|, targetScopeDepth, target.name, |old(labels)|)
    {
      hide Valid, FinallyCount, UnwindCalls, Normals;
      var scopeDelta := ScopeDepth() - targetScopeDepth;
      if scopeDelta == 0 {
        UnwindNothing(ContextsOf(scopeContextStack), targetScopeDepth, target.name, |labels|);
        EmitJump(target);
        return;
      }
      if finallyDepth > 0 {
        EmitComplexJumpScopes(target, |scopeContextStack| - 1, |scopeContextStack| - 1 - scopeDelta);
        return;
      }
      NoFinally(scopeContextStack);
      AllNormals(ContextsOf(scopeContextStack), |scopeContextStack|, targetScopeDepth);
      UnwindNormals(ContextsOf(scopeContextStack), |scopeContextStack|, targetScopeDepth, target.name, |labels|);
      EmitJmpScopes(scopeDelta, target);
    }
  }
}
