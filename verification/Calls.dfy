/** Passing arguments by aliasing: the caller evaluates them into consecutive temporaries
    that become the callee's parameters when the register window slides over them. */
module Calls {
  import opened Bytecode
  import opened Registers

  const CALL_FRAME_HEADER_SIZE := 8

  // ----------------------------------------------------------------- caller

  /** Emitting an argument into the referenced register at the end of `counts` keeps that
      register and releases everything allocated after it. */
  predicate Tidy(counts: seq<nat>, reserved: nat, actions: seq<Action>) {
    && AllPossible(counts, actions)
    && HoldsReserved(counts, reserved, actions)
    && Kept(ApplyAll(counts, actions)) == |counts|
  }

  predicate AllTidy(counts: seq<nat>, reserved: nat, args: seq<seq<Action>>)
    decreases |args|
  {
    args == [] ||
    (var start := Apply(counts, NewReferenced);
     Tidy(start, reserved, args[0]) && AllTidy(ApplyAll(start, args[0]), reserved, args[1..]))
  }

  ghost predicate Consecutive(registers: seq<RegisterID>, first: nat)
    reads registers
  {
    forall k | 0 <= k < |registers| :: registers[k].index == first + k
  }

  lemma NextAction(counts: seq<nat>, reserved: nat, actions: seq<Action>)
    requires actions != [] && AllPossible(counts, actions) && HoldsReserved(counts, reserved, actions)
    ensures Possible(counts, actions[0])
    ensures reserved > 0 && actions[0] == Deref(reserved - 1) ==> counts[reserved - 1] > 1
    ensures var after := Apply(counts, actions[0]);
      && AllPossible(after, actions[1..]) && HoldsReserved(after, reserved, actions[1..])
      && ApplyAll(after, actions[1..]) == ApplyAll(counts, actions)
  {
    hide Kept;
    if reserved > 0 && actions[0] == Deref(reserved - 1) {
      assert Apply(counts, actions[0])[reserved - 1] > 0;
    }
  }

  /** Runs an argument's emitter, which may use any registers. */
  method EmitArgument(g: RegisterAllocator, actions: seq<Action>)
    requires g.Valid() && g.numConstants > 0
    requires AllPossible(g.Counts(), actions) && HoldsReserved(g.Counts(), g.numVars + g.numConstants, actions)
    modifies g`calleeRegisters, g`numCalleeRegisters, g.calleeRegisters`refCount
    ensures g.Valid() && g.Counts() == ApplyAll(old(g.Counts()), actions)
    ensures old(g.numCalleeRegisters) <= g.numCalleeRegisters
    ensures forall r | r in g.calleeRegisters :: r in old(g.calleeRegisters) || fresh(r)
  {
    hide *;
    for i := 0 to |actions|
      invariant g.Valid()
      invariant forall k | 0 <= k < |g.calleeRegisters| :: g.calleeRegisters[k] in old(g.calleeRegisters) || fresh(g.calleeRegisters[k])
      invariant AllPossible(g.Counts(), actions[i..]) && HoldsReserved(g.Counts(), g.numVars + g.numConstants, actions[i..])
      invariant ApplyAll(g.Counts(), actions[i..]) == ApplyAll(old(g.Counts()), actions)
      invariant old(g.numCalleeRegisters) <= g.numCalleeRegisters
    {
      assert actions[i..][0] == actions[i] && actions[i..][1..] == actions[i + 1..];
      NextAction(g.Counts(), g.numVars + g.numConstants, actions[i..]);
      ghost var before := g.calleeRegisters;
      g.Perform(actions[i]);
      forall k | 0 <= k < |g.calleeRegisters| ensures g.calleeRegisters[k] in old(g.calleeRegisters) || fresh(g.calleeRegisters[k]) {
        if g.calleeRegisters[k] in before {
          var j :| 0 <= j < |before| && before[j] == g.calleeRegisters[k];
        }
      }
    }
    AllDone(g.Counts());
    assert actions[|actions|..] == [];
  }

  lemma AllDone(counts: seq<nat>)
    ensures AllPossible(counts, []) && ApplyAll(counts, []) == counts
  {
  }

  /** A held temporary is the last register kept. */
  lemma HeldIsKept(counts: seq<nat>)
    ensures var after := Apply(counts, NewReferenced);
      Kept(after) == |after| == Kept(counts) + 1
  {
  }

  lemma NextArgument(counts: seq<nat>, reserved: nat, args: seq<seq<Action>>)
    requires args != [] && AllTidy(counts, reserved, args)
    ensures var start := Apply(counts, NewReferenced);
      && AllPossible(start, args[0]) && HoldsReserved(start, reserved, args[0])
      && var after := ApplyAll(start, args[0]);
      && Kept(after) == Kept(counts) + 1
      && AllTidy(after, reserved, args[1..])
  {
    HeldIsKept(counts);
  }

  /** A register for an argument, and its evaluation into it. */
  method EvaluateArgument(g: RegisterAllocator, actions: seq<Action>, ghost rest: seq<seq<Action>>) returns (r: RegisterID)
    requires g.Valid() && g.numConstants > 0
    requires AllTidy(g.Counts(), g.numVars + g.numConstants, [actions] + rest)
    modifies g`calleeRegisters, g`numCalleeRegisters, g.calleeRegisters`refCount
    ensures g.Valid() && r.index == Kept(old(g.Counts())) && fresh(r)
    ensures Kept(g.Counts()) == r.index + 1 && AllTidy(g.Counts(), g.numVars + g.numConstants, rest)
    ensures old(g.numCalleeRegisters) <= g.numCalleeRegisters
    ensures forall k | 0 <= k < |g.calleeRegisters| :: g.calleeRegisters[k] in old(g.calleeRegisters) || fresh(g.calleeRegisters[k])
  {
    hide *;
    NextArgument(g.Counts(), g.numVars + g.numConstants, [actions] + rest);
    assert ([actions] + rest)[1..] == rest;
    r := g.HoldTemporary();
    ghost var before := g.calleeRegisters;
    EmitArgument(g, actions);
    forall k | 0 <= k < |g.calleeRegisters| ensures g.calleeRegisters[k] in old(g.calleeRegisters) || fresh(g.calleeRegisters[k]) {
      if g.calleeRegisters[k] in before {
        var j :| 0 <= j < |before| && before[j] == g.calleeRegisters[k];
      }
    }
  }

  method ReserveCallFrame(g: RegisterAllocator) returns (callFrame: seq<RegisterID>)
    requires g.Valid() && g.numConstants > 0
    modifies g`calleeRegisters, g`numCalleeRegisters
    ensures g.Valid() && |callFrame| == CALL_FRAME_HEADER_SIZE
    ensures forall k | 0 <= k < |callFrame| :: fresh(callFrame[k]) && callFrame[k].index == Kept(old(g.Counts())) + k < g.numCalleeRegisters
    ensures old(g.numCalleeRegisters) <= g.numCalleeRegisters
  {
    hide Kept, Apply, RegisterAllocator.Valid, RegisterAllocator.Counts;
    ghost var first := Kept(g.Counts());
    callFrame := [];
    for i := 0 to CALL_FRAME_HEADER_SIZE
      invariant g.Valid() && |callFrame| == i
      invariant forall k | 0 <= k < i :: fresh(callFrame[k]) && callFrame[k].index == first + k < g.numCalleeRegisters
      invariant Kept(g.Counts()) == first + i
      invariant old(g.numCalleeRegisters) <= g.numCalleeRegisters
    {
      HeldIsKept(g.Counts());
      var r := g.HoldTemporary();
      assert r.index == first + i;
      callFrame := callFrame + [r];
    }
  }

  /** The operands of `op_call`: the arguments, after a register for `this`, and the
      registers kept free for the call frame. */
  method EmitCallOperands(g: RegisterAllocator, args: seq<seq<Action>>)
    returns (argv: seq<RegisterID>, callFrame: seq<RegisterID>, registerOffset: int)
    requires g.Valid() && g.numConstants > 0
    requires AllTidy(Apply(g.Counts(), NewReferenced), g.numVars + g.numConstants, args)
    modifies g`calleeRegisters, g`numCalleeRegisters, g.calleeRegisters`refCount
    ensures g.Valid() && |argv| == |args| + 1 && |callFrame| == CALL_FRAME_HEADER_SIZE
    ensures argv[0].index == Kept(old(g.Counts())) >= g.numVars + g.numConstants
    ensures Consecutive(argv, argv[0].index) && Consecutive(callFrame, argv[0].index + |argv|)
    ensures registerOffset == argv[0].index + |argv| + CALL_FRAME_HEADER_SIZE <= g.numCalleeRegisters
  {
    hide Kept, Apply, Possible, AllPossible, ApplyAll, HoldsReserved, Tidy, AllTidy, RegisterAllocator.Valid, RegisterAllocator.Counts;
    ghost var first, reserved := Kept(g.Counts()), g.numVars + g.numConstants;
    HeldIsKept(g.Counts());
    var this_ := g.HoldTemporary();
    argv := [this_];
    for i := 0 to |args|
      invariant g.Valid() && |argv| == i + 1 && Consecutive(argv, first)
      invariant Kept(g.Counts()) == first + |argv| && AllTidy(g.Counts(), reserved, args[i..])
      invariant forall k | 0 <= k < |g.calleeRegisters| :: g.calleeRegisters[k] in old(g.calleeRegisters) || fresh(g.calleeRegisters[k])
    {
      assert args[i..] == [args[i]] + args[i + 1..];
      var r := EvaluateArgument(g, args[i], args[i + 1..]);
      argv := argv + [r];
    }
    callFrame := ReserveCallFrame(g);
    assert callFrame[CALL_FRAME_HEADER_SIZE - 1].index < g.numCalleeRegisters;
    registerOffset := argv[0].index + |argv| + CALL_FRAME_HEADER_SIZE;
  }

  // ----------------------------------------------------------------- callee

  /** The last parameter with the given name, among the first `n`. */
  function LastNamed(parameters: seq<string>, n: nat, name: string): (k: int)
    requires n <= |parameters|
    ensures -1 <= k < n
    ensures k >= 0 ==> parameters[k] == name
    ensures forall j | k < j < n :: parameters[j] != name
  {
    if n == 0 then -1 else if parameters[n - 1] == name then n - 1 else LastNamed(parameters, n - 1, name)
  }

  /** Gives a function's parameters their register indices.  A parameter hides neither a
      function nor its own register: every parameter takes one, named or not. */
  method AddParameters(parameters: seq<string>, functions: set<string>, variables: map<string, int>)
    returns (thisIndex: int, symbolTable: map<string, int>, numParameters: nat)
    ensures numParameters == |parameters| + 1
    ensures thisIndex == -CALL_FRAME_HEADER_SIZE - numParameters
    ensures forall name | name !in functions ::
      var k := LastNamed(parameters, |parameters|, name);
      if k >= 0 then name in symbolTable && symbolTable[name] == thisIndex + 1 + k
      else (name in symbolTable <==> name in variables) && (name in variables ==> symbolTable[name] == variables[name])
    ensures forall name | name in functions ::
      (name in symbolTable <==> name in variables) && (name in variables ==> symbolTable[name] == variables[name])
  {
    symbolTable := variables;
    var nextParameter := -CALL_FRAME_HEADER_SIZE - |parameters| - 1;
    thisIndex := nextParameter;
    nextParameter := nextParameter + 1;
    numParameters := 1;
    for i := 0 to |parameters|
      invariant nextParameter == thisIndex + 1 + i && numParameters == 1 + i
      invariant forall name | name !in functions ::
        var k := LastNamed(parameters, i, name);
        if k >= 0 then name in symbolTable && symbolTable[name] == thisIndex + 1 + k
        else (name in symbolTable <==> name in variables) && (name in variables ==> symbolTable[name] == variables[name])
      invariant forall name | name in functions ::
        (name in symbolTable <==> name in variables) && (name in variables ==> symbolTable[name] == variables[name])
    {
      if parameters[i] !in functions {
        symbolTable := symbolTable[parameters[i] := nextParameter];
      }
      nextParameter := nextParameter + 1;
      numParameters := numParameters + 1;
    }
  }

  // ------------------------------------------------------------------- call

  /** The first `n` arguments, missing ones undefined. */
  function Passed(args: seq<Cell>, n: nat): (passed: seq<Cell>)
    ensures |passed| == n
    ensures forall k | 0 <= k < n :: passed[k] == if k < |args| then args[k] else Val(Undefined)
  {
    seq(n, k => if 0 <= k < |args| then args[k] else Val(Undefined))
  }

  function MovedBy(argc: nat, numParameters: nat): nat {
    if argc == numParameters then 0 else if argc < numParameters then numParameters - argc else numParameters
  }

  /** The parameters end at `top`, and hold the arguments that ended at `free`. */
  ghost predicate Slid(before: seq<Cell>, after: seq<Cell>, free: nat, argc: nat, numParameters: nat, top: nat) {
    && argc <= free <= |before| == |after| && free <= top <= |after| && numParameters <= top
    && after[top - numParameters..top] == Passed(before[free - argc..free], numParameters)
    && after[..free] == before[..free]
  }

  lemma StayIsPassed(file: seq<Cell>, free: nat, argc: nat)
    requires argc <= free <= |file|
    ensures Slid(file, file, free, argc, argc, free)
  {
  }

  /** Moves the register window from the caller at `r` to the callee, whose parameters
      become the last registers before its frame header. */
  method SlideRegisterWindowForCall(file: array<Cell>, r: nat, registerOffset: nat, argc: nat, numParameters: nat, numCalleeRegisters: nat)
    returns (newR: Option<nat>)
    requires argc + CALL_FRAME_HEADER_SIZE <= r + registerOffset <= file.Length
    modifies file
    ensures newR.Some? <==> r + registerOffset + MovedBy(argc, numParameters) + numCalleeRegisters <= file.Length
    ensures newR.None? ==> file[..] == old(file[..])
    ensures newR.Some? ==>
      && newR.value == r + registerOffset + MovedBy(argc, numParameters) <= file.Length
      && Slid(old(file[..]), file[..], r + registerOffset - CALL_FRAME_HEADER_SIZE, argc, numParameters, newR.value - CALL_FRAME_HEADER_SIZE)
  {
    hide Slid, Passed;
    var newEnd := r + registerOffset + numCalleeRegisters;
    ghost var free := r + registerOffset - CALL_FRAME_HEADER_SIZE;
    if argc == numParameters {
      if newEnd > file.Length { return None; }
      StayIsPassed(file[..], free, argc);
      return Some(r + registerOffset);
    } else if argc < numParameters { // those missing become undefined, where they would have been
      var omittedArgCount := numParameters - argc;
      newEnd := newEnd + omittedArgCount;
      if newEnd > file.Length { return None; }
      FillUndefined(file, r + registerOffset - CALL_FRAME_HEADER_SIZE, omittedArgCount);
      FilledIsPassed(old(file[..]), file[..], free, argc, numParameters);
      return Some(r + registerOffset + omittedArgCount);
    } else { // the parameters are copied past all the arguments
      newEnd := newEnd + numParameters;
      if newEnd > file.Length { return None; }
      CopyForward(file, r + registerOffset - CALL_FRAME_HEADER_SIZE - argc, argc, numParameters);
      CopiedIsPassed(old(file[..]), file[..], free, argc, numParameters);
      return Some(r + registerOffset + numParameters);
    }
  }

  method FillUndefined(file: array<Cell>, from: nat, count: nat)
    requires from + count <= file.Length
    modifies file
    ensures file[..from] == old(file[..from])
    ensures forall k | from <= k < from + count :: file[k] == Val(Undefined)
  {
    for i := 0 to count
      invariant file[..from] == old(file[..from])
      invariant forall k | from <= k < from + i :: file[k] == Val(Undefined)
    {
      file[from + i] := Val(Undefined);
    }
  }

  lemma FilledIsPassed(before: seq<Cell>, after: seq<Cell>, free: nat, argc: nat, numParameters: nat)
    requires argc <= free && argc < numParameters && |after| == |before| && free + numParameters - argc <= |after|
    requires after[..free] == before[..free] && forall k | free <= k < free + numParameters - argc :: after[k] == Val(Undefined)
    ensures Slid(before, after, free, argc, numParameters, free + numParameters - argc)
  {
    assert after[free - argc..free] == after[..free][free - argc..] == before[free - argc..free];
  }

  lemma CopiedIsPassed(before: seq<Cell>, after: seq<Cell>, free: nat, argc: nat, numParameters: nat)
    requires numParameters <= argc <= free <= free + numParameters <= |after| == |before|
    requires after[..free] == before[..free] && after[free..free + numParameters] == before[free - argc..free - argc + numParameters]
    ensures Slid(before, after, free, argc, numParameters, free + numParameters)
  {
  }

  /** Copies `count` cells from `argv` on to `argc` cells further. */
  method CopyForward(file: array<Cell>, argv: nat, argc: nat, count: nat)
    requires count <= argc && argv + argc + count <= file.Length
    modifies file
    ensures file[..argv + argc] == old(file[..argv + argc])
    ensures file[argv + argc..argv + argc + count] == old(file[argv..argv + count])
  {
    ghost var to, low, copied := argv + argc, file[..argv + argc], file[argv..argv + count];
    for i := 0 to count
      invariant file[..to] == low && file[to..to + i] == copied[..i]
    {
      assert file[argv + i] == file[..to][argv + i] == copied[i];
      file[argv + i + argc] := file[argv + i];
      assert file[to..to + i + 1] == file[to..to + i] + [file[to + i]];
    }
  }

  /** The callee's register `index` holds argument `k`, if it was passed. */
  predicate Holds(file: seq<Cell>, newR: nat, index: int, args: seq<Cell>, k: nat) {
    0 <= newR + index < |file| && file[newR + index] == if k < |args| then args[k] else Val(Undefined)
  }

  lemma PassedHolds(before: seq<Cell>, after: seq<Cell>, free: nat, argc: nat, numParameters: nat, top: nat, k: nat)
    requires Slid(before, after, free, argc, numParameters, top)
    requires k < numParameters && top + CALL_FRAME_HEADER_SIZE <= |after|
    ensures Holds(after, top + CALL_FRAME_HEADER_SIZE, k - CALL_FRAME_HEADER_SIZE - numParameters, before[free - argc..free], k)
  {
    assert after[top - numParameters..top][k] == Passed(before[free - argc..free], numParameters)[k];
  }

  /** Where the header goes, and that the cells below it are kept. */
  lemma SlidKeeps(before: seq<Cell>, after: seq<Cell>, free: nat, argc: nat, numParameters: nat)
    requires Slid(before, after, free, argc, numParameters, free + MovedBy(argc, numParameters))
    ensures free <= |before| == |after| && after[..free] == before[..free]
    ensures argc == numParameters ==> MovedBy(argc, numParameters) == 0
  {
  }

  /** A call with operands as emitted: the callee finds `this` and, under the name of each
      parameter, the argument passed for it.  Nothing the caller keeps is touched, and with
      as many arguments as parameters the frame header falls on the registers reserved. */
  method Call(file: array<Cell>, r: nat, argv: nat, argc: nat, parameters: seq<string>, functions: set<string>, numCalleeRegisters: nat)
    returns (newR: Option<nat>, thisIndex: int, symbolTable: map<string, int>)
    requires argc > 0 && r + argv + argc + CALL_FRAME_HEADER_SIZE <= file.Length
    modifies file
    ensures newR.Some? ==>
      && Holds(file[..], newR.value, thisIndex, old(file[r + argv..r + argv + argc]), 0)
      && (forall name | name !in functions && LastNamed(parameters, |parameters|, name) >= 0 ::
            && name in symbolTable
            && Holds(file[..], newR.value, symbolTable[name], old(file[r + argv..r + argv + argc]), 1 + LastNamed(parameters, |parameters|, name)))
      && file[..r + argv + argc] == old(file[..r + argv + argc])
      && r + argv + argc <= newR.value - CALL_FRAME_HEADER_SIZE
      && (argc == |parameters| + 1 ==> newR.value - CALL_FRAME_HEADER_SIZE == r + argv + argc)
  {
    hide Holds, LastNamed, Slid, MovedBy;
    ghost var before, free := file[..], r + argv + argc;
    var numParameters;
    thisIndex, symbolTable, numParameters := AddParameters(parameters, functions, map[]);
    newR := SlideRegisterWindowForCall(file, r, argv + argc + CALL_FRAME_HEADER_SIZE, argc, numParameters, numCalleeRegisters);
    if newR.Some? {
      ghost var top := newR.value - CALL_FRAME_HEADER_SIZE;
      SlidKeeps(before, file[..], free, argc, numParameters);
      PassedHolds(before, file[..], free, argc, numParameters, top, 0);
      forall name | name !in functions && LastNamed(parameters, |parameters|, name) >= 0
        ensures name in symbolTable && Holds(file[..], newR.value, symbolTable[name], before[r + argv..free], 1 + LastNamed(parameters, |parameters|, name))
      {
        PassedHolds(before, file[..], free, argc, numParameters, top, 1 + LastNamed(parameters, |parameters|, name));
      }
    }
  }

  /** The callee's register holds what the caller had in the register of argument `k`. */
  ghost predicate Found(file: seq<Cell>, newR: nat, index: int, before: seq<Cell>, r: nat, argv: seq<RegisterID>, k: nat)
    reads argv
  {
    && 0 <= newR + index < |file|
    && (k < |argv| ==> 0 <= r + argv[k].index < |before| && file[newR + index] == before[r + argv[k].index])
    && (k >= |argv| ==> file[newR + index] == Val(Undefined))
  }

  lemma HeldIsFound(file: seq<Cell>, newR: nat, index: int, before: seq<Cell>, r: nat, argv: seq<RegisterID>, k: nat)
    requires |argv| > 0 && argv[0].index >= 0 && Consecutive(argv, argv[0].index) && r + argv[0].index + |argv| <= |before|
    requires Holds(file, newR, index, before[r + argv[0].index..r + argv[0].index + |argv|], k)
    ensures Found(file, newR, index, before, r, argv, k)
  {
  }

  /** The operands emitted for a call, and the call made with them: each parameter is found
      where the caller evaluated the argument for it, and with equal counts the eight
      registers reserved become the callee's frame header. */
  method EmitThenCall(g: RegisterAllocator, args: seq<seq<Action>>, file: array<Cell>, r: nat,
                      parameters: seq<string>, functions: set<string>, numCalleeRegisters: nat)
    returns (argv: seq<RegisterID>, callFrame: seq<RegisterID>, newR: Option<nat>, thisIndex: int, symbolTable: map<string, int>)
    requires g.Valid() && g.numConstants > 0
    requires AllTidy(Apply(g.Counts(), NewReferenced), g.numVars + g.numConstants, args)
    requires r + Kept(g.Counts()) + 1 + |args| + CALL_FRAME_HEADER_SIZE <= file.Length
    modifies g`calleeRegisters, g`numCalleeRegisters, g.calleeRegisters`refCount, file
    ensures |argv| == |args| + 1 && |callFrame| == CALL_FRAME_HEADER_SIZE
    ensures forall k | 0 <= k < |argv| :: 0 <= r + argv[k].index < file.Length
    ensures newR.Some? ==> Found(file[..], newR.value, thisIndex, old(file[..]), r, argv, 0)
    ensures newR.Some? ==> forall name | name !in functions && LastNamed(parameters, |parameters|, name) >= 0 ::
      name in symbolTable && Found(file[..], newR.value, symbolTable[name], old(file[..]), r, argv, 1 + LastNamed(parameters, |parameters|, name))
    ensures newR.Some? && |argv| == |parameters| + 1 ==>
      forall j | 0 <= j < |callFrame| :: r + callFrame[j].index == newR.value - CALL_FRAME_HEADER_SIZE + j
  {
    hide RegisterAllocator.Valid, RegisterAllocator.Counts, Kept, Apply, AllTidy, LastNamed, Holds, Found;
    ghost var before := file[..];
    var registerOffset;
    argv, callFrame, registerOffset := EmitCallOperands(g, args);
    newR, thisIndex, symbolTable := Call(file, r, argv[0].index, |argv|, parameters, functions, numCalleeRegisters);
    if newR.Some? {
      HeldIsFound(file[..], newR.value, thisIndex, before, r, argv, 0);
      forall name | name !in functions && LastNamed(parameters, |parameters|, name) >= 0
        ensures name in symbolTable && Found(file[..], newR.value, symbolTable[name], before, r, argv, 1 + LastNamed(parameters, |parameters|, name))
      {
        HeldIsFound(file[..], newR.value, symbolTable[name], before, r, argv, 1 + LastNamed(parameters, |parameters|, name));
      }
    }
  }
}
