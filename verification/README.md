# JavaScriptCore code generation, modelled in Dafny

This project models the part of JavaScriptCore that turns syntax trees into
bytecode, and the tables, caches and links that its JIT builds around that bytecode.
It proves what these parts promise each other, for all inputs and all runs.

`dafny verify dfyconfig.toml` checks everything.

## What is modelled

**Emission** (`Bytecode`, `Peephole`, `Layout`, `Stream`, `Emitter`, `Registers`).
`Emitter.CodeGenerator` is the generator: it appends words to the instruction vector,
back-patches forward jumps through `LabelID`, and rewinds a comparison to fuse it with
the jump after it. A ghost list of the calls made is the reference: `Peephole.Unfused`
gives each call its own instruction, `Peephole.Fused` is what is kept. The generator's
invariant, `Stream.StreamTied`, says that the words, the labels and the pending slots are
those of `Fused(calls)`. `Bytecode` is a small-step machine with registers, a scope
chain, return addresses and a log of everything observable; comparisons, conversions,
property-name enumeration and all instructions without control flow are parameters. They
may answer according to what was observed before; a comparison may throw, and an ordinary
instruction may look at the scopes, throw, or end the run.

**Meaning** (`Relate`, `CallMeaning`, `PeepholeMeaning`, `Unwind`, `Correctness`). What each
call on the generator means in any state; the words of any legal run of the emitter behave
as one instruction per call would; the code emitted for leaving `with` and `finally`
contexts leaves them exactly; no loop runs without looking for a timeout.

**Positions and switches** (`Positions`, `SwitchTables`, `SwitchEmission`). Line and
expression lookup on the tables that emission leaves, and the three kinds of switch table,
from the clauses to the place dispatched to, against a search in clause order.

**The JIT** (`Words`, `TaggedArith`, `SlowCases`). Fast paths on 32-bit tagged words,
against exact integer results, with the registers each slow exit hands on; and the two
passes over the instructions that plant and link slow cases, with the records by which the
runtime comes back to the code of a property access or a call to patch it.

**Links and caches** (`CallLinks`, `ProtoChain`, `Resolution`, `GlobalCache`, `Calls`).
Call sites linked to code blocks that come and go; stubs for properties found on
prototypes, in a world where objects, structures and chains change in between; identifier
resolution for reading and writing, with the slot that a `resolve_global` remembers;
argument passing by overlapping register windows.

**Containers and types** (`SegmentedVectors`, `ResultTypes`).

## Where the code does not do what one would expect

- In the interpreter `jneq_null` jumps for an object that masquerades as undefined
  (`JavaScriptCore/VM/Machine.cpp:3071-3088`), although `eq_null` finds it equal to null.
  So fusing a null test with a jump changes the way taken, for these objects only. The
  JIT's version agrees. `PeepholeMeaning.FusedPairMeaning` gives the exact condition, and
  the theorems about whole runs ask that no such object is tested by a `jneq_null`.
- `%` yields +0 where the language wants -0 (`TaggedArith.ModExactIff`).
- A switch over immediate numbers sends -0 to the default clause though it strictly
  equals 0 (`SwitchTables.ImmediateSwitchIff`).
- The type given to a sum is wrong when only one operand can be a number and the other is
  not known to be a string (`ResultTypes.ForAddSoundIff`).
- A `typeof` comparison reads the constant pool by register number, which is right for
  all pools only in code without variables (`ResultTypes.FusionRightForAllPoolsIff`).
- `SegmentedVector::shrink` to nothing keeps a stale size, and `grow` to a multiple of
  the segment size within the present segments empties the last one
  (`SegmentedVectors.SegmentedVector.Resize`).
- `expressionInfo` keeps 25 bits of an offset, so streams of 2^25 words and more can be
  answered with the wrong extent (`Positions.LookupRightIff`).
- `resolve_global` remembers an offset under the global object's structure
  (`JavaScriptCore/VM/Machine.cpp:385-424`) without asking whether the object is a
  dictionary, whose properties move in place, or whether the property was found on a
  prototype, whose offsets are its own. `GlobalCache.RememberedRightIff` gives the exact
  condition, `GlobalCache.DeletedGlobal` and `GlobalCache.InheritedGlobal` the failures.
- A structure inherits the cached prototype chain of the structure it was made from. The
  chain may be stale; a stub made from it never answers wrongly
  (`ProtoChain.ChainStubSound`), but the chain may be too short for the walk that the stub
  compiler makes along it (`ProtoChain.StaleChainTooShort`).
- `op_bitnot` plants one slow case (`JavaScriptCore/VM/CTI.cpp:1813-1820`) and consumes
  one (`JavaScriptCore/VM/CTI.cpp:2631-2638`); no opcode is out of balance.

## Conventions the proofs rest on

- A condition that a jump absorbs is a temporary nobody reads afterwards
  (`Correctness.Finished`); the emitters of the syntax-tree nodes keep to this.
- Each time a jump out enters a finally block before it has arrived, the block returns to
  where it was called from, with the scopes it was entered with, and without itself entering
  a block that encloses it (`Unwind.SubroutinesReturn`).
- An argument's emitter keeps the argument's register and releases what it allocates
  (`Calls.Tidy`).
- There is at least one constant register: the number asked for is one more than the
  parser counts (`JavaScriptCore/kjs/nodes.h:2185-2190`).
- Structures grow younger only, and keep their prototype and, unless dictionaries, their
  properties (`ProtoChain.Evolves`).

## Model

| member | source | states |
|---|---|---|
| Correctness.WordsMeanCalls | JavaScriptCore/VM/CodeGenerator.cpp:474-656 | Every run of the words the generator leaves, after any legal sequence of emitter calls (jumps, conditional jumps, labels, other instructions in any order, labels between a comparison and its jump included), is a run of the program with one instruction per call: same observations in the same order (each comparison once), same scopes, same exceptions, same registers outside the dead ones, at corresponding places. |
| Correctness.CallsMeanWords | JavaScriptCore/VM/CodeGenerator.cpp:474-656 | The converse: every state of a run with one instruction per call is matched by the words; only between a comparison and the jump that absorbed it are the words still before both. |
| Correctness.JitNullTestsAgree | JavaScriptCore/VM/CTI.cpp:1657-1716 | The proviso of the two theorems above holds of every program and state under the JIT's `jeq_null` and `jneq_null`. |
| Correctness.InterpreterTellsMasquerading | JavaScriptCore/VM/Machine.cpp:3071-3088 | Under the interpreter it does not: fusing `eq_null` and `jfalse` into `jneq_null` sends an object that masquerades as undefined the other way. |
| Correctness.UnwindingRuns | JavaScriptCore/VM/CodeGenerator.cpp:1436-1498 | Code emitted to jump out of any mixed stack of `with` and `finally` contexts, whatever was emitted before and after it, if the finally blocks it enters on its way return, reaches its target with exactly the scopes above the target depth popped and every finally block above it run, innermost first, once each, at the depth where it was pushed. |
| Correctness.UnwindingWordsRun | JavaScriptCore/VM/CodeGenerator.cpp:1436-1498 | The same of the words: their program counter ends at the location recorded in the target's label. |
| PeepholeMeaning.FusedPairMeaning | JavaScriptCore/VM/CodeGenerator.cpp:526-656 | One fused jump against the pair it replaced, for every state and engine: same log, scopes and exception, registers untouched but for the condition, and the same way taken if and only if the null tests agree (when the two ways differ). |
| PeepholeMeaning.FusedRunFollowed | JavaScriptCore/VM/CodeGenerator.cpp:526-656 | Every state of a fused run is reached by the unfused run, outside dead registers. |
| PeepholeMeaning.UnfusedRunFollowed | JavaScriptCore/VM/CodeGenerator.cpp:526-656 | Every state of an unfused run is reached by the fused run, or lies inside a pair about to be executed. |
| PeepholeMeaning.PairStep | JavaScriptCore/VM/CodeGenerator.cpp:526-656 | One step of the fused program simulates both steps of an absorbed comparison and its jump. |
| PeepholeMeaning.FlowReachesBoundary | JavaScriptCore/VM/CodeGenerator.cpp:474-482 | Control never enters a pair between its two instructions, whether by a jump, by falling through or by returning from a subroutine. |
| Peephole.FusedCorresponds | JavaScriptCore/VM/CodeGenerator.cpp:474-656 | For every legal call sequence the rewound and re-emitted program corresponds to the unfused one: each instruction is kept or forms a fused pair with the next, order is kept, and every label keeps its place, never inside a pair. |
| Peephole.ExtendCorresponds | JavaScriptCore/VM/CodeGenerator.cpp:474-656 | Any one further call keeps that correspondence. |
| Layout.DecodeEncode | JavaScriptCore/VM/CodeGenerator.cpp:484-505 | Decoding the words of an instruction, anywhere in the stream, gives back the instruction. |
| Layout.WordsRunLikeProgram | JavaScriptCore/VM/LabelID.h:63-85 | Words whose jump operands hold the distance from their own slot run in lock step with the symbolic program, for any number of steps, return addresses included. |
| Stream.AppendEncodes | JavaScriptCore/VM/CodeGenerator.cpp:484-488 | Appending an encoded instruction to the words of a program gives the words of the longer program. |
| Stream.RewindEncodes | JavaScriptCore/VM/CodeGenerator.cpp:507-517 | Cutting off the last instruction gives the words of the shorter program, if no label stands after it. |
| Stream.PlaceEncodes | JavaScriptCore/VM/LabelID.h:63-75 | Patching the pending slots of a label and no others gives the words of the program with the label placed. |
| Stream.KeepAppend | JavaScriptCore/VM/CodeGenerator.cpp:519-524 | The stream invariant (words, labels and calls agree) survives any call that adds an instruction. |
| Stream.KeepFuse | JavaScriptCore/VM/CodeGenerator.cpp:507-524 | It survives a rewind followed by the fused jump. |
| Stream.KeepPlace | JavaScriptCore/VM/CodeGenerator.cpp:474-482 | It survives placing a label. |
| Stream.KeepNewLabel | JavaScriptCore/VM/CodeGenerator.cpp:463-472 | It survives making a label. |
| Stream.JumpOperands | JavaScriptCore/VM/LabelID.h:63-85 | In any reachable stream each jump operand at slot j holds location(label) - j if its label is placed, and is pending on its label otherwise. |
| Stream.RewoundUntouched | JavaScriptCore/VM/CodeGenerator.cpp:507-517 | No pending slot and no placed label lies inside or after the instruction that a rewind removes. |
| Stream.LastOperands | JavaScriptCore/VM/CodeGenerator.cpp:490-505 | The operands read back from the end of the stream are those of the comparison last emitted. |
| Stream.FusedWidth | JavaScriptCore/VM/CodeGenerator.cpp:507-517 | A fused jump is exactly as wide as the instruction it replaces. |
| Emitter.LabelID.SetLocation | JavaScriptCore/VM/LabelID.h:63-75 | Every unresolved operand, and no other word, becomes the distance from its slot to the location; the location joins the block's labels. |
| Emitter.LabelID.OffsetFrom | JavaScriptCore/VM/LabelID.h:77-85 | An unplaced label answers 0 and records the slot; a placed one answers the distance and records nothing. |
| Emitter.CodeGenerator.constructor | JavaScriptCore/VM/CodeGenerator.cpp:195-210 | A new generator satisfies the stream, label and position invariants. |
| Emitter.CodeGenerator.NewLabel | JavaScriptCore/VM/CodeGenerator.cpp:463-472 | A fresh forward label; the invariants hold. |
| Emitter.CodeGenerator.EmitLabel | JavaScriptCore/VM/CodeGenerator.cpp:474-482 | The label is placed at the end of the stream without changing its length, the call is recorded, and nothing before it can be fused any more. |
| Emitter.CodeGenerator.EmitOpcode | JavaScriptCore/VM/CodeGenerator.cpp:484-488 | Appends the opcode word and remembers it as the last one. |
| Emitter.CodeGenerator.EmitUnaryOp | JavaScriptCore/VM/CodeGenerator.cpp:721-729 | Appends the opcode, dst, src and, for some opcodes, a type word, keeping all invariants; the instruction of this call, executed in any state, gives dst the value the opcode makes of src and changes no other register. |
| Emitter.CodeGenerator.EmitBinaryOp | JavaScriptCore/VM/CodeGenerator.cpp:761-774 | Appends the opcode, dst, src1, src2 and, for some opcodes, a types word, in this order, keeping all invariants; the instruction of this call, executed in any state, compares or combines src1 with src2 in this order, once, and changes no register but dst. |
| Emitter.CodeGenerator.RetrieveLastBinaryOp | JavaScriptCore/VM/CodeGenerator.cpp:490-497 | Reads back the operands of the comparison that the calls made last. |
| Emitter.CodeGenerator.RetrieveLastUnaryOp | JavaScriptCore/VM/CodeGenerator.cpp:499-505 | The same for a unary test. |
| Emitter.CodeGenerator.RewindBinaryOp | JavaScriptCore/VM/CodeGenerator.cpp:507-511 | Removes the last four words. |
| Emitter.CodeGenerator.RewindUnaryOp | JavaScriptCore/VM/CodeGenerator.cpp:513-517 | Removes the last three words. |
| Emitter.CodeGenerator.EmitJump | JavaScriptCore/VM/CodeGenerator.cpp:519-524 | `jmp` to a forward and `loop` to a backward label; words and pending slots stay those of the calls made; executed, it always goes to the target, looking for a timeout exactly when the label was placed. |
| Emitter.CodeGenerator.EmitJumpIfTrue | JavaScriptCore/VM/CodeGenerator.cpp:526-590 | Whichever branch is taken, fused or not, the words, labels and last opcode are those that the calls so far, plus this conditional jump, stand for; that jump goes to the target exactly when the condition converts to true, looks for a timeout when it goes back, and changes nothing else. |
| Emitter.CodeGenerator.EmitJumpIfFalse | JavaScriptCore/VM/CodeGenerator.cpp:592-656 | The same for the jump taken when the condition converts to false. |
| Emitter.CodeGenerator.EmitNextPropertyName | JavaScriptCore/VM/CodeGenerator.cpp:1500-1507 | The same for `next_pname`, whose last operand is a jump distance: dst gets the next name of the enumeration in iter and control goes back, until there is none. |
| Emitter.CodeGenerator.EmitNode | JavaScriptCore/VM/CodeGenerator.h:160-174 | A visit to a node is recorded at the present offset; the line table stays sorted and stays the compression of all visits, despite rewinding. |
| Emitter.CodeGenerator.EmitExpressionInfo | JavaScriptCore/VM/CodeGenerator.h:176-203 | An expression's extent is recorded at the present offset; the table stays the truncation of all extents noted. |
| Emitter.CodeGenerator.LineNumberForVPC | JavaScriptCore/VM/CodeBlock.cpp:1114-1135 | On the table of any run of the emitter: the line of the last node begun at or before the instruction, or the first line. |
| Emitter.CodeGenerator.ExpressionRangeForVPC | JavaScriptCore/VM/CodeBlock.cpp:1137-1172 | On the table of any run shorter than 2^25 words: what is recoverable of the last extent noted at or before the instruction; its divot, start and end themselves if and only if all of them fit. |
| Emitter.CodeGenerator.EmitPushScope | JavaScriptCore/VM/CodeGenerator.cpp:1318-1326 | The scope context is pushed, the depth counters agree with the stack; the instruction pushes the value of the register innermost. |
| Emitter.CodeGenerator.EmitPopScope | JavaScriptCore/VM/CodeGenerator.cpp:1328-1337 | The scope context is popped, the counters agree; the instruction drops the innermost scope alone. |
| Emitter.CodeGenerator.PushFinallyContext | JavaScriptCore/VM/CodeGenerator.cpp:1349-1357 | The finally context is pushed, the counters agree. |
| Emitter.CodeGenerator.PopFinallyContext | JavaScriptCore/VM/CodeGenerator.cpp:1359-1366 | The finally context is popped, the counters agree. |
| Emitter.CodeGenerator.EmitJumpSubroutine | JavaScriptCore/VM/CodeGenerator.cpp:1527-1533 | Emits the call of a finally block, keeping all invariants; executed, it goes there and leaves the place of the next instruction in the register. |
| Emitter.CodeGenerator.EmitSubroutineReturn | JavaScriptCore/VM/CodeGenerator.cpp:1535-1539 | Emits the return from a finally block, keeping all invariants; executed, it goes to the place in the register. |
| Emitter.CodeGenerator.CountNormalScopes | JavaScriptCore/VM/CodeGenerator.cpp:1446-1456 | The number of `with` scopes directly below the top, down to the bottom or a finally block. |
| Emitter.CodeGenerator.EmitNormalScopes | JavaScriptCore/VM/CodeGenerator.cpp:1445-1470 | What one round of the loop emits before finally blocks, and whether it has arrived. |
| Emitter.CodeGenerator.EmitFinallyBlocks | JavaScriptCore/VM/CodeGenerator.cpp:1472-1476 | One `jsr` per adjacent finally block, and no more than that, whatever the read of the context at the bottom, possibly before the stack, yields. |
| Emitter.CodeGenerator.EmitComplexJumpScopes | JavaScriptCore/VM/CodeGenerator.cpp:1436-1479 | The loop emits exactly the calls that leave the contexts above the bottom. |
| Emitter.CodeGenerator.EmitJumpScopes | JavaScriptCore/VM/CodeGenerator.cpp:1481-1498 | So do all three ways of the entry point: no scopes to leave, finally blocks among them, `with` scopes only. |
| CallMeaning.LoopsPoll | JavaScriptCore/VM/CodeGenerator.cpp:519-656 | No loop runs without looking for a timeout: in any closed program of legal calls, fused or not, every step back logs one, but for jumps out of scopes, calls of and returns from finally blocks. |
| CallMeaning.FusedForward | JavaScriptCore/VM/CodeGenerator.cpp:519-656 | Every jump the generator keeps that does not look for a timeout, fused ones included, goes forward. |
| CallMeaning.PlainJumpsOn | JavaScriptCore/VM/CodeGenerator.cpp:519-656 | What the three jumps of the interface do in any state: when they are taken, where to, and when they look for a timeout. |
| PeepholeMeaning.AbsorbedAreFree | JavaScriptCore/VM/CodeGenerator.cpp:526-656 | Over all legal calls, an instruction is only ever absorbed by the conditional jump right after it, which tests the register it computes, an unreferenced temporary. |
| Unwind.UnwindRuns | JavaScriptCore/VM/CodeGenerator.cpp:1436-1498 | Running unwinding code from any state at the right depth: arrival, scopes and finally blocks exactly as for `Correctness.UnwindingRuns`, by induction on the context stack. |
| Unwind.UnwindEmitted | JavaScriptCore/VM/CodeGenerator.cpp:1436-1479 | The emitted calls put that code at the end of the program. |
| Unwind.UnwindStays | JavaScriptCore/VM/CodeGenerator.cpp:474-524 | No later emission, rewinds included, disturbs it. |
| Unwind.CallsGrow | JavaScriptCore/VM/CodeGenerator.cpp:474-524 | Over any further calls placed labels stay and nothing but a last absorbable instruction is ever replaced. |
| Unwind.FinallyRuns | JavaScriptCore/VM/Machine.cpp:3915-3937 | A `jsr` to a finally block that returns from this entry comes back to the next instruction with the scopes it had, and enters the block once at that depth. |
| Positions.RecordLinesKeepsLines | JavaScriptCore/VM/CodeGenerator.h:160-170 | Keeping a record only when the line changes loses no line of any offset. |
| Positions.LineNumberForOffset | JavaScriptCore/VM/CodeBlock.cpp:1114-1135 | The binary search returns the line of the last record at or before the offset, or the first line. |
| Positions.RangeInfo | JavaScriptCore/VM/CodeGenerator.h:176-203 | The record fits its 25- and 7-bit fields, says everything recoverable of the extent (an extent that does not fit is lost with what is stored after it, a far divot loses all), and holds the offset exactly if and only if that is below 2^25. |
| Positions.RecoveredWholeIff | JavaScriptCore/VM/CodeGenerator.h:176-203 | An extent is recovered whole if and only if its divot lies less than 2^25 characters into the source and its start and end are below 128; the end is lost first, then the start, then the divot. |
| Positions.ClampIs | JavaScriptCore/VM/CodeGenerator.h:176-203 | Those properties leave one record only. |
| Positions.ExpressionRangeForOffset | JavaScriptCore/VM/CodeBlock.cpp:1137-1172 | On any table, sorted or not, the loop answers with the record at which halving ends. |
| Positions.ShortStream | JavaScriptCore/VM/CodeBlock.cpp:1137-1172 | Below 2^25 words the table is sorted and halving ends at the last extent at or before the offset. |
| Positions.LookupRightIff | JavaScriptCore/VM/CodeBlock.cpp:1137-1172 | For every n: all streams of up to n words are looked up rightly at every offset if and only if n is below 2^25; the same for their tables being sorted. |
| Positions.LongStreamMisread | JavaScriptCore/VM/CodeGenerator.h:176-203 | One extent noted past 2^25 words is answered with at offset 0, where nothing is in force. |
| Positions.LongStreamUnsorted | JavaScriptCore/VM/CodeGenerator.h:176-203 | Past 2^25 words a table in emission order can be unsorted. |
| Registers.TemporariesAreSafe | JavaScriptCore/VM/CodeGenerator.cpp:432-441 | Over every history of allocations, references and releases that holds the last constant, no allocation hands out a referenced register, a local or a constant. |
| Registers.SparesReservedIff | JavaScriptCore/VM/CodeGenerator.cpp:432-441 | One allocation spares the locals and constants if and only if the last of them or a later register is referenced. |
| Registers.LocalsNeedAConstant | JavaScriptCore/VM/CodeGenerator.cpp:183-194 | Without constants the first temporary would take the first local. |
| Registers.RegisterAllocator.NewRegister | JavaScriptCore/VM/CodeGenerator.cpp:425-430 | Register i has index i, and the recorded count bounds every index handed out. |
| Registers.RegisterAllocator.AddVar | JavaScriptCore/VM/CodeGenerator.cpp:150-164 | A new name takes the next register; a name declared again keeps its register and attributes; no other name changes. |
| Registers.RegisterAllocator.AllocateConstants | JavaScriptCore/VM/CodeGenerator.cpp:183-194 | Constants take the registers after the variables; the last is held. |
| Registers.RegisterAllocator.Reclaim | JavaScriptCore/VM/CodeGenerator.cpp:432-436 | Removes exactly the unreferenced registers at the end, never a local or constant. |
| Registers.RegisterAllocator.NewTemporary | JavaScriptCore/VM/CodeGenerator.cpp:432-441 | The index is that of the first register after the last referenced one, at or past the constants, and below the recorded count; the registers before it are untouched. |
| Registers.RegisterAllocator.HighestUsedRegister | JavaScriptCore/VM/CodeGenerator.cpp:443-449 | Registers are made up to the highest count ever reached, whose last one is returned. |
| Registers.RegisterAllocator.Perform | JavaScriptCore/VM/RegisterID.h:84-98 | Each action on the registers has its effect on the reference counts and keeps the invariant. |
| Calls.EmitCallOperands | JavaScriptCore/VM/CodeGenerator.cpp:1208-1240 | Whatever code the arguments emit, `this`, the arguments and the eight registers reserved for the frame are consecutive, and the register offset is the end of them. |
| Calls.EvaluateArgument | JavaScriptCore/VM/CodeGenerator.cpp:1216-1222 | An argument's register directly follows those kept before, and is kept itself. |
| Calls.AddParameters | JavaScriptCore/VM/CodeGenerator.cpp:322-338 | A parameter's name leads to the register of the last parameter of that name, unless a function has it; the registers end at the frame header. |
| Calls.SlideRegisterWindowForCall | JavaScriptCore/VM/Machine.cpp:537-572 | With as many, fewer or more arguments than parameters the callee's parameter registers hold the arguments passed, missing ones undefined; nothing before the arguments' end changes; failure changes nothing. |
| Calls.Call | JavaScriptCore/VM/Machine.cpp:537-572 | Slide and parameter indices together: the callee finds `this` and each named parameter in the registers argv points at; nothing before their end changes. |
| Calls.EmitThenCall | JavaScriptCore/VM/CodeGenerator.cpp:1208-1240 | Emission, slide and parameter indices together: each parameter is found with the value the caller had in the register of its argument, and with equal counts the eight registers reserved become the callee's frame header. |
| TaggedArith.AddExact | JavaScriptCore/VM/CTI.cpp:907-912 | For all words: the fast path is taken if and only if both are integers and the sum is one, and yields its tag. |
| TaggedArith.SubExact | JavaScriptCore/VM/CTI.cpp:913-917 | The same for subtraction. |
| TaggedArith.MulExact | JavaScriptCore/VM/CTI.cpp:918-935 | The same for multiplication; a product of -0 leaves for the slow path. |
| TaggedArith.MulConstExact | JavaScriptCore/VM/CTI.cpp:1260-1288 | The same for multiplication by a positive constant. |
| TaggedArith.AddConstExact | JavaScriptCore/VM/CTI.cpp:1021-1052 | The same for a constant operand; the slow path undoes the addition and gets the original word even after wraparound. |
| TaggedArith.IncExact | JavaScriptCore/VM/CTI.cpp:2517-2528 | The same for `pre_inc` with its undo. |
| TaggedArith.DecExact | JavaScriptCore/VM/CTI.cpp:2567-2578 | The same for `pre_dec` with its undo. |
| TaggedArith.NegateExact | JavaScriptCore/VM/CTI.cpp:1511-1522 | Negation is exact on integers; 0, whose negation is -0, and the least integer leave for the slow path. |
| TaggedArith.ModExactIff | JavaScriptCore/VM/CTI.cpp:1838-1852 | The remainder is the language's if and only if the dividend is not a negative multiple of the divisor (there +0 stands for -0); the slow path gets both original words. |
| TaggedArith.ModLeaves | JavaScriptCore/VM/CTI.cpp:1838-1852 | For integers a and b other than 0: the fast path stores the tag of r if and only if a = q * b + r for some q, r is smaller than b in magnitude, and r is 0 or has the sign of a; for b = 0 it leaves. |
| TaggedArith.LshiftExact | JavaScriptCore/VM/CTI.cpp:1764-1776 | Left shift modulo 32 of the low five bits, exact; the slow path reloads the original operands. |
| TaggedArith.RshiftExact | JavaScriptCore/VM/CTI.cpp:1801-1812 | Right shift of the tagged word, without untagging, is the tag of the shifted integer. |
| TaggedArith.BitAndExact | JavaScriptCore/VM/CTI.cpp:1777-1800 | `&` on tagged words is the tag of `&`; the slow path gets the original operands. |
| TaggedArith.BitAndConstExact | JavaScriptCore/VM/CTI.cpp:2639-2664 | The same with a constant operand; the slow path gets the other operand as it was. |
| TaggedArith.BitOrExact | JavaScriptCore/VM/CTI.cpp:1918-1926 | `|` on tagged words is the tag of `|`; the slow path gets the original operands. |
| TaggedArith.BitXorExact | JavaScriptCore/VM/CTI.cpp:1900-1909 | `^` with the tag put back is the tag of `^`; the slow path gets the original operands. |
| TaggedArith.BitNotExact | JavaScriptCore/VM/CTI.cpp:1813-1820 | Flipping all bits but the tag is the tag of the complement; the slow path gets the original operand. |
| Words.BitwiseBits | JavaScriptCore/VM/CTI.cpp:1777-1800 | The word operations `&`, `|` and `^` act on each bit alone. |
| TaggedArith.NotExact | JavaScriptCore/VM/CTI.cpp:1629-1638 | Booleans are negated; any other value reaches the helper as it was. |
| TaggedArith.EqExact | JavaScriptCore/VM/CTI.cpp:1752-1763 | Integers compare as integers; the rest goes to the slow path unchanged. |
| TaggedArith.CompareExact | JavaScriptCore/VM/CTI.cpp:1086-1127 | The branch on two integers is taken exactly when the first is less, is less or equal, or is not less than the second; the rest goes to the slow path unchanged. |
| TaggedArith.JumpExact | JavaScriptCore/VM/CTI.cpp:1853-1871 | Both conditional jumps decide integers and booleans, in opposite senses, and no other value. |
| TaggedArith.EqNullExact | JavaScriptCore/VM/CTI.cpp:2143-2172 | The mask test holds of null and undefined and of no other word. |
| TaggedArith.IndexExact | JavaScriptCore/VM/CTI.cpp:1417-1437 | The element is loaded if and only if the index is an integer from 0 to below the cutoff; otherwise the helper gets the original index. |
| SlowCases.CTI.CompileBinaryArithOp | JavaScriptCore/VM/CTI.cpp:801-946 | The number of slow cases planted, by opcode, operand types and constants. |
| SlowCases.CTI.CompileBinaryArithOpSlowCase | JavaScriptCore/VM/CTI.cpp:948-990 | Links exactly that many, in order. |
| SlowCases.CTI.CompileInstruction | JavaScriptCore/VM/CTI.cpp:1006-2281 | One instruction plants a fixed number of notes, all naming it, after those of earlier instructions; its label is where its code starts, and what it notes for a property access or a call lies in its code, at the offsets at which it is patched later. |
| SlowCases.CTI.PrivateCompileMainPass | JavaScriptCore/VM/CTI.cpp:992-2281 | The notes stand in instruction order; property accesses and calls are met in the order of their tables, both indices end at their totals, and the hot path noted for each lies between its own label and the next. |
| SlowCases.CTI.CompileSlowCase | JavaScriptCore/VM/CTI.cpp:2303-2887 | One visit consumes one note or all notes of its instruction, links them to that instruction's code, and resumes at the next instruction. |
| SlowCases.CTI.PrivateCompileSlowCases | JavaScriptCore/VM/CTI.cpp:2303-2887 | Every note is linked, to code of its own opcode, none is skipped or taken by a neighbour; both indices end at their totals. |
| SlowCases.CTI.PrivateCompile | JavaScriptCore/VM/CTI.cpp:2889-2986 | Each property access has one record, in order: it names the access, its hot path lies in the code the main pass assembled for that access, with the structure, branch and offset to patch at their distances from it, and its return address in the code the slow pass assembled for it; return addresses strictly increase. The same for the records of calls. |
| SlowCases.CTI.PatchSelf | JavaScriptCore/VM/CTI.cpp:3346-3358 | From the return address of any access's slow call, lookup leads to the structure and the offset in that access's own code. |
| SlowCases.CTI.PatchLink | JavaScriptCore/VM/CTI.cpp:3273-3288 | From the record of any call, linking leads to the function and the branch in that call's own code. |
| SlowCases.CTI.NextVisit | JavaScriptCore/VM/CTI.cpp:2303-2312 | A visit begins at the first note not consumed, which names the instruction being visited. |
| SlowCases.SkipSilent | JavaScriptCore/VM/CTI.cpp:2303-2312 | Between two instructions with notes no property access or call is passed over. |
| SlowCases.NotesKept | JavaScriptCore/VM/CTI.cpp:992-1010 | Planting for one instruction leaves the notes of all earlier ones in place. |
| SlowCases.GetStubInfo | JavaScriptCore/VM/CodeBlock.h:123-157 | The chop ends, never looks at an empty range, and returns the one record with the address. |
| CallLinks.CodeBlock.AddCaller | JavaScriptCore/VM/CodeBlock.h:273-278 | The caller is listed at its recorded position. |
| CallLinks.CodeBlock.RemoveCaller | JavaScriptCore/VM/CodeBlock.h:280-290 | Exactly that caller leaves the list, and every position stays right after the swap with the last. |
| CallLinks.CodeBlock.UnlinkCallers | JavaScriptCore/VM/CodeBlock.cpp:980-991 | No caller listed holds this callee any more. |
| CallLinks.LinkCall | JavaScriptCore/VM/CTI.cpp:3273-3288 | The site holds the callee and is listed if and only if the counts fit; it is never tried again. |
| CallLinks.UnlinkCall | JavaScriptCore/VM/CTI.cpp:3265-3271 | The site's embedded function can no longer match. |
| CallLinks.Heap.EmbeddedFunctionAlive | JavaScriptCore/VM/CodeBlock.h:96-116 | In every reachable heap a live site that embeds a function embeds a live one, is in exactly one list, at its recorded position, of that function's code, and passes as many arguments as it takes. |
| CallLinks.Heap.LazyLinkCall | JavaScriptCore/VM/Machine.cpp:4759-4774 | Linking on first execution keeps the invariant; a site is never linked twice. |
| CallLinks.Heap.ExecuteCall | JavaScriptCore/VM/CTI.cpp:620-692 | Whatever the site holds, the code that runs is that of the function called; the fast way is taken only with fitting counts from a listed site. |
| CallLinks.Heap.DestroyFunction | JavaScriptCore/runtime/JSFunction.cpp:55-64 | After the destructor no site embeds the function or calls its code; the invariant holds. |
| CallLinks.Heap.RemoveSite | JavaScriptCore/VM/CodeBlock.cpp:966-970 | A dying site leaves the list it is in, without disturbing the others. |
| CallLinks.Heap.DestroyBlock | JavaScriptCore/VM/CodeBlock.cpp:954-991 | After the destructor of a code block no site calls it, and none of its sites is listed anywhere. |
| CallLinks.Heap.CalledThroughFunction | JavaScriptCore/VM/CodeBlock.h:270-290 | A block with callers is the body of a live function. |
| CallLinks.Heap.NewBlock | JavaScriptCore/VM/CodeBlock.h:96-116 | A new block's sites are unlinked; the invariant holds. |
| ProtoChain.ChecksFind | JavaScriptCore/VM/CTI.cpp:3098-3140 | By induction on the length: if all structure checks of a stub pass, in any later world, plain lookup finds the slot it loads, even when the chain it was made from was stale. |
| ProtoChain.ChainStubSound | JavaScriptCore/VM/CTI.cpp:3098-3140 | So a chain stub is right for every object and all later time. |
| ProtoChain.SelfStubSound | JavaScriptCore/VM/CTI.cpp:2988-3010 | The same for a property of the object itself. |
| ProtoChain.ProtoStubSound | JavaScriptCore/VM/CTI.cpp:3012-3095 | The same for a property of the prototype. |
| ProtoChain.FoundOnce | JavaScriptCore/VM/CTI.cpp:3012-3140 | A plain lookup has one result: the slot a stub must load is determined. |
| ProtoChain.FreshChainReaches | JavaScriptCore/runtime/StructureIDChain.cpp:35-54 | A chain listed now is long enough for any property found now. |
| ProtoChain.FreshChecksPass | JavaScriptCore/runtime/StructureIDChain.cpp:35-54 | The checks made of a chain listed now pass now. |
| ProtoChain.StaleChainTooShort | JavaScriptCore/runtime/StructureID.cpp:269-328 | A chain listed earlier can be shorter than the walk to the holder, the base having kept its structure. |
| ProtoChain.StaleHistory | JavaScriptCore/VM/Machine.cpp:4277-4289 | The history that leads there: chain listed, prototype given a prototype, property asked for. |
| ProtoChain.CompileGetByIdChain | JavaScriptCore/VM/CTI.cpp:3098-3140 | Makes one check per prototype, following the chain, unless the chain runs out. |
| ProtoChain.ListChain | JavaScriptCore/runtime/StructureIDChain.cpp:35-54 | Lists the structures of all prototypes. |
| ProtoChain.AccessCache.InheritChain | JavaScriptCore/runtime/StructureID.cpp:269-328 | A structure made by adding a property inherits a chain that was right when listed. |
| ProtoChain.AccessCache.CachePrototypeChain | JavaScriptCore/VM/Machine.cpp:1231-1239 | The cached chain is right for the present world. |
| ProtoChain.AccessCache.FromDictionary | JavaScriptCore/runtime/StructureID.cpp:359-368 | A dictionary becomes fixed under the same structure; the lookups stay. |
| ProtoChain.AccessCache.CountToHolder | JavaScriptCore/VM/Machine.cpp:4250-4275 | The walk meets the holder exactly where the property is found, and no object on the way is a dictionary any more. |
| ProtoChain.AccessCache.TryCacheGetByID | JavaScriptCore/VM/Machine.cpp:4165-4290 | Any stub installed is sound for all later time; none is installed if and only if the base was a dictionary, or the property lies more than one prototype up, no dictionary is on the way and the chain cached before the call is too short. |
| Resolution.FindScopedProperty | JavaScriptCore/VM/CodeGenerator.cpp:896-948 | Whether reading or writing: the depth at which the static search stops, that nothing passed over can ever come to hold the name, the index of the symbol found there, and the global object exactly at the last scope; it gives up in optimizable code if and only if a write meets a read-only symbol. |
| Resolution.EmitAssignResolve | JavaScriptCore/kjs/nodes.cpp:920-946 | On every later instance of the scope chain, the store writes the value to exactly the variable that a search from the innermost scope finds, which may be assigned to, and the load finds that variable; they are emitted if and only if the code is optimizable and the nearest symbol is settled and not read-only. |
| Resolution.EmitResolve | JavaScriptCore/VM/CodeGenerator.cpp:960-1013 | On every later instance of the scope chain, whatever symbols and properties its dynamic scopes gained or lost since, the instruction chosen finds the binding that a search from the innermost scope finds, if and only if it is no `resolve_global` that remembers a wrong slot; a direct access is chosen if and only if all scopes before the one with the symbol are settled. |
| Resolution.GlobalFound | JavaScriptCore/VM/Machine.cpp:385-424 | A search of the global object finds the slot remembered if and only if it is right. |
| Resolution.PassedOver | JavaScriptCore/VM/CodeGenerator.cpp:918-944 | The scopes skipped never hold the name in any later chain, though dynamic scopes may have gained symbols. |
| GlobalCache.ResolveGlobal.Execute | JavaScriptCore/VM/Machine.cpp:385-424 | With matching structures the remembered slot is the answer; otherwise the answer is a search's, and a property found is remembered under the global object's structure, wherever it was found. |
| GlobalCache.GetPropertySlot | JavaScriptCore/VM/Machine.cpp:400-424 | The walk over own properties, variables and prototypes answers as the search. |
| GlobalCache.RememberedRightIff | JavaScriptCore/VM/Machine.cpp:394-415 | What is remembered stays right, for all later time and whatever happens, if and only if the property was the global object's own and the object no dictionary. |
| GlobalCache.RememberedResolves | JavaScriptCore/VM/CTI.cpp:1568-1598 | Under that condition a `resolve_global` chosen by the generator, cache and all, finds what a search from the innermost scope finds, in every later world and chain. |
| GlobalCache.DeletedGlobal | JavaScriptCore/VM/Machine.cpp:394-397 | A global deleted from a dictionary is still found, in the slot another global took over. |
| GlobalCache.InheritedGlobal | JavaScriptCore/VM/Machine.cpp:405-412 | A name found on the prototype is found, the second time, in the global object's own slot of that offset. |
| Resolution.SearchSkips | JavaScriptCore/VM/Machine.cpp:353-384 | Skipping scopes without the name does not change what a search finds. |
| SwitchTables.ProcessClauseList | JavaScriptCore/kjs/nodes.cpp:1427-1466 | After any clause lists: all integers, all strings or neither; least and greatest key; whether all strings are single characters. |
| SwitchTables.TryOptimizedSwitch | JavaScriptCore/kjs/nodes.cpp:1468-1495 | Exactly when a table is chosen, and which: all integers or all strings, with least and greatest key within 1000 and dense enough for a simple table. |
| SwitchTables.SimpleJumpTable.Add | JavaScriptCore/VM/CodeBlock.h:197-202 | The first clause for a key wins. |
| SwitchTables.SimpleJumpTable.Prepare | JavaScriptCore/VM/CodeGenerator.cpp:1590-1627 | The table holds for every key the distance to the first clause with it, 0 if there is none. |
| SwitchTables.TableSends | JavaScriptCore/VM/CodeBlock.cpp:1174-1182 | Dispatch on any 31-bit value goes to the first clause with that key, otherwise to the default: the marker 0 never collides and value - min never overflows. |
| SwitchTables.ImmediateSwitchIff | JavaScriptCore/VM/Machine.cpp:3166-3185 | An immediate switch goes where trying the clauses in order goes, if and only if the scrutinee is not -0 with a clause for 0 elsewhere than the default. |
| SwitchTables.CharacterSwitch | JavaScriptCore/VM/Machine.cpp:3186-3208 | A character switch goes where trying the clauses in order goes. |
| SwitchTables.StringSwitch | JavaScriptCore/VM/Machine.cpp:3209-3226 | A string switch goes where trying the clauses in order goes. |
| SwitchEmission.SwitchGenerator.BeginSwitch | JavaScriptCore/VM/CodeGenerator.cpp:1554-1575 | Four words are appended, the first the opcode of the kind of table, and their place is remembered. |
| SwitchEmission.SwitchGenerator.EndSwitch | JavaScriptCore/VM/CodeGenerator.cpp:1647-1677 | The table index and default distance of the switch begun last are filled in, no other word changes, and for every value the instruction then goes where its clauses say. |
| SwitchEmission.SwitchGenerator.EmitClauses | JavaScriptCore/kjs/nodes.cpp:1535-1548 | Each clause's statements stand at its label, past what was emitted before. |
| SwitchEmission.SwitchGenerator.EmitCodeForBlock | JavaScriptCore/kjs/nodes.cpp:1497-1560 | From clause lists to dispatch, which reads nothing but the four words and the tables: with the table the clauses call for, immediate, character or string, every value goes to where the statements of the first clause that strictly equals it stand, otherwise to the default's or past the block; only -0 goes to the default in an immediate switch. That labels lie past the four words follows from emission. |
| SwitchEmission.SameExtremes | JavaScriptCore/kjs/nodes.cpp:1479-1493 | Which table is chosen depends on the clauses alone, and the least key is a 31-bit value. |
| SwitchTables.StringJumpTable.Prepare | JavaScriptCore/VM/CodeGenerator.cpp:1629-1645 | The table holds for every text the distance to the first clause with it. |
| SwitchTables.StringJumpTable.Translate | JavaScriptCore/VM/CTI.cpp:2946-2956 | For every string the native table gives the machine address of the label that the offset selects. |
| SwitchTables.TranslateSwitch | JavaScriptCore/VM/CTI.cpp:2931-2945 | The same for every value of a simple table. |
| SegmentedVectors.SegmentedVector.constructor | JavaScriptCore/VM/SegmentedVector.h:36-42 | An empty vector with one segment. |
| SegmentedVectors.SegmentedVector.Append | JavaScriptCore/VM/SegmentedVector.h:56-62 | The contents gain the value at the end; every segment, and so every element, stays where it is. |
| SegmentedVectors.SegmentedVector.RemoveLast | JavaScriptCore/VM/SegmentedVector.h:64-78 | The contents lose the last value; the remaining segments are the same. |
| SegmentedVectors.SegmentedVector.Last | JavaScriptCore/VM/SegmentedVector.h:50-54 | The last element of the contents. |
| SegmentedVectors.SegmentedVector.At | JavaScriptCore/VM/SegmentedVector.h:80-86 | The element of the contents at the index. |
| SegmentedVectors.SegmentedVector.Shrink | JavaScriptCore/VM/SegmentedVector.h:98-120 | The contents are cut, except to nothing: then the size is stale. |
| SegmentedVectors.SegmentedVector.Grow | JavaScriptCore/VM/SegmentedVector.h:122-157 | The contents grow, except to a multiple of the segment size within the segments there are: then the last segment is emptied. |
| SegmentedVectors.SegmentedVector.Resize | JavaScriptCore/VM/SegmentedVector.h:88-95 | Resizing keeps the vector sound if and only if it is neither of those two cases; then the contents are as asked. |
| SegmentedVectors.CountIsCeiling | JavaScriptCore/VM/SegmentedVector.h:50-163 | The segment count of a sound vector is max(1, ceil(size / segmentSize)). |
| SegmentedVectors.EmptiedByResize | JavaScriptCore/VM/SegmentedVector.h:137-141 | A vector that meets the second case: five elements in segments of four, resized to eight, end with an empty second segment. |
| SegmentedVectors.OneSegmentGrows | JavaScriptCore/VM/SegmentedVector.h:122-157 | A vector of one segment, such as a new one, never meets the second case. |
| ResultTypes.ForAddSoundIff | JavaScriptCore/kjs/ResultType.h:116-123 | The type given to a sum covers every possible result if and only if both operands may be numbers or one is known to be a string. |
| ResultTypes.ForAddNumber | JavaScriptCore/kjs/ResultType.h:116-123 | A sum is known to be a number if and only if both operands are; its cell may be overwritten if and only if it may be a number. |
| ResultTypes.NullPlusNumber | JavaScriptCore/kjs/ResultType.h:116-123 | Null plus a number is typed wrongly. |
| ResultTypes.FusionRightIff | JavaScriptCore/VM/CodeGenerator.cpp:776-832 | A `typeof` comparison fused through the constant pool is right if and only if the register is a constant's and the pool holds the same string at its register number. |
| ResultTypes.FusionRightForAllPoolsIff | JavaScriptCore/VM/CTI.cpp:171-179 | It is right for all pools if and only if there are no variables. |

## Left out

- PeepholeMeaning.FusedRunFollowed: asks that the absorbed conditions, which are unreferenced temporaries (`PeepholeMeaning.AbsorbedAreFree`), are dead after their jumps, a convention of the syntax-tree nodes, which are not modelled.
- Unwind.UnwindRuns: asks that the finally blocks entered on the way return; their contents come from the syntax tree.
- Calls.EmitCallOperands: asks that each argument's emitter tidies up its temporaries, for the same reason.
- Emitter.LabelID.SetLocation: locations are unbounded; the original keeps them in 32 bits and marks an unplaced label with the largest one.
- Emitter.CodeGenerator.constructor: does not emit `op_enter` or declare variables; declarations are in `Registers` and `Calls`.
- Emitter.CodeGenerator.NewLabel: does not reuse the storage of labels that are no longer referenced, so labels have no reference count.
- Emitter.CodeGenerator.EmitOperands: one `Plain` instruction stands for all opcodes without control flow; switches are in `SwitchEmission`, on the same words and labels but apart from the runs.
- Stream.RewoundUntouched: is about the rewinds of conditional jumps; the rewind of a `typeof` that `emitEqualityOp` folds into a test is no call of this stream, and only its rightness is in `ResultTypes`.
- SwitchEmission.SwitchGenerator.EmitStatements: statements append words and tables of their own; clauses that fit no table, which are compared one by one, are left out.
- Registers.RegisterAllocator.AddVar: global variables, which have indices below zero, are left out.
- Resolution.EmitResolve: getters, setters and host objects in scopes are not modelled.
- GlobalCache.ResolveGlobal.Execute: getters and other slots that are never remembered are left out.
- SlowCases.CTI.PrivateCompileSlowCases: records which opcode's code a slow case is linked to, not the address or the machine instructions there.
- TaggedArith.ModExactIff: the fast paths are values of the registers, not encoded x86 instructions.
- ProtoChain.AccessCache.TryCacheGetByID: gives no stub when a stale chain runs out, where the original walks past its end; proxies, primitive bases, array and string lengths, uncacheable slots and the reference counts of structures are not modelled.
- ProtoChain.CompileGetByIdChain: stops where the original walks past the end of a chain that is too short.
- CallLinks.Heap.DestroyBlock: is called when no live function has the block as its code, as functions hold their code; how the collector decides that is not modelled.
- CallLinks.Heap.ExecuteCall: host functions and construction through a link are left out; construction has the same operands and links as a call.
- Calls.SlideRegisterWindowForCall: the register file has a fixed end; committing and mapping its memory is left out.
- Positions.LineNumberForOffset: offsets are compared as unbounded numbers below 2^32.
- Exception handlers, `emitCatch` and the search for a handler: a throw ends the run.
- Doubles and number cells: only the slow cases they plant are counted.
- Stores by name and their structure transitions; of the patching of code in place, only the places are modelled.
- The x86 assembler, but for the lengths of the instructions that are patched; trampolines, executable memory.
- Regular expression compilation.
- Syntax tree, parser, garbage collector, debugger, profiler, sampling and dumping.
