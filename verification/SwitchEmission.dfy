/** Emitting a switch that a table dispatches, from its clauses to the words and tables that
    decide where it goes. */
module SwitchEmission {
  import opened Bytecode
  import opened Layout
  import opened Emitter
  import opened SwitchTables

  /** A switch instruction is an opcode, a table index, a default distance and a register. */
  const OpSwitchImm := OpPlain(0, 0, 2)
  const OpSwitchChar := OpPlain(1, 0, 2)
  const OpSwitchString := OpPlain(2, 0, 2)

  function SwitchOp(t: SwitchType): Op
    requires !t.SwitchNone?
  {
    match t
    case SwitchImmediate => OpSwitchImm
    case SwitchCharacter => OpSwitchChar
    case SwitchString => OpSwitchString
  }

  datatype SwitchInfo = SwitchInfo(opcodeOffset: nat, switchType: SwitchType)

  /** What the statements of a clause emit: words, and the tables of the switches in them. */
  datatype Statements = Statements(words: seq<Word>, immediate: seq<SimpleJumpTable>, character: seq<SimpleJumpTable>, strings: seq<StringJumpTable>)

  datatype Clause = Clause(literal: Literal, statements: Statements)

  function Literals(clauses: seq<Clause>): (literals: seq<Literal>)
    ensures |literals| == |clauses| && forall k :: 0 <= k < |clauses| ==> literals[k] == clauses[k].literal
  {
    seq(|clauses|, k requires 0 <= k < |clauses| => clauses[k].literal)
  }

  /** Where a dispatched switch goes: to the first clause that strictly equals the value,
      and otherwise to the default; an immediate switch sends -0 there as well. */
  function Destination(t: SwitchType, literals: seq<Literal>, locations: seq<nat>, defaultLocation: nat, v: Scrutinee): nat
    requires |locations| == |literals|
  {
    if t.SwitchImmediate? && v.NegativeZero? then defaultLocation else Target(literals, locations, defaultLocation, v)
  }

  /** `ws` stands at `at`. */
  ghost predicate StandAt(words: seq<Word>, at: nat, ws: seq<Word>) {
    at + |ws| <= |words| && words[at..at + |ws|] == ws
  }

  lemma StandStill(words: seq<Word>, words': seq<Word>, from: nat, at: nat, ws: seq<Word>)
    requires StandAt(words, at, ws) && from <= at
    requires |words| <= |words'| && forall j | from <= j < |words| :: words'[j] == words[j]
    ensures StandAt(words', at, ws)
  {
    assert words'[at..at + |ws|] == words[at..at + |ws|];
  }

  /** The statements of each clause stand at its label, at or after `from`. */
  ghost predicate Laid(words: seq<Word>, labels: seq<LabelID>, clauses: seq<Clause>, from: nat)
    requires |labels| == |clauses|
    reads labels
  {
    forall k | 0 <= k < |clauses| :: LaidAt(words, labels[k].location, clauses[k], from)
  }

  ghost predicate LaidAt(words: seq<Word>, location: Option<nat>, clause: Clause, from: nat) {
    location.Some? && from <= location.value && StandAt(words, location.value, clause.statements.words)
  }

  lemma LaidStill(words: seq<Word>, words': seq<Word>, labels: seq<LabelID>, clauses: seq<Clause>, from: nat)
    requires |labels| == |clauses| && Laid(words, labels, clauses, from)
    requires |words| <= |words'| && forall j | from <= j < |words| :: words'[j] == words[j]
    ensures Laid(words', labels, clauses, from)
  {
    hide StandAt;
    forall k | 0 <= k < |clauses| ensures LaidAt(words', labels[k].location, clauses[k], from) {
      assert LaidAt(words, labels[k].location, clauses[k], from);
      StandStill(words, words', from, labels[k].location.value, clauses[k].statements.words);
    }
  }

  /** The clauses fit the kind of table. */
  predicate Chosen(t: SwitchType, literals: seq<Literal>, min: int, max: int) {
    match t
    case SwitchImmediate => min <= max && IsImmediateInt(min) && forall k | 0 <= k < |literals| :: KeyWithin(literals[k], Numbers, min, max)
    case SwitchCharacter => min <= max && IsImmediateInt(min) && forall k | 0 <= k < |literals| :: KeyWithin(literals[k], Strings, min, max)
    case SwitchString => forall k | 0 <= k < |literals| :: literals[k].Text?
    case SwitchNone => true
  }

  method ChooseTable(list1: seq<Literal>, list2: seq<Literal>) returns (t: SwitchType, literals: seq<Literal>, min: int, max: int)
    ensures Chosen(t, literals, min, max) && (!t.SwitchNone? ==> literals == list1 + list2)
    ensures t == TableFor(list1 + list2)
  {
    t, literals, min, max := TryOptimizedSwitch(list1, list2);
    var all := list1 + list2;
    if all != [] && (AllOf(all, Numbers) || (AllOf(all, Strings) && AllSingle(all))) {
      SameExtremes(all, if AllOf(all, Numbers) then Numbers else Strings, min, max);
    }
  }

  /** Which table the clauses get, if any. */
  ghost function TableFor(all: seq<Literal>): SwitchType {
    if all == [] then SwitchNone
    else if AllOf(all, Numbers) then if Spread(all, Numbers) then SwitchImmediate else SwitchNone
    else if AllOf(all, Strings) then if AllSingle(all) && Spread(all, Strings) then SwitchCharacter else SwitchString
    else SwitchNone
  }

  /** The keys of the clauses lie close enough. */
  ghost predicate Spread(all: seq<Literal>, kind: SwitchKind)
    requires all != []
  {
    exists min, max :: Extremes(all, kind, min, max) && Dense(min, max, |all|)
  }

  lemma SameExtremes(all: seq<Literal>, kind: SwitchKind, min: int, max: int)
    requires all != [] && Extremes(all, kind, min, max)
    ensures Spread(all, kind) <==> Dense(min, max, |all|)
    ensures IsImmediateInt(min)
  {
    if Spread(all, kind) {
      var min', max' :| Extremes(all, kind, min', max') && Dense(min', max', |all|);
      Within(all, kind, min, max, min', max');
      Within(all, kind, min', max', min, max);
    }
  }

  lemma Within(all: seq<Literal>, kind: SwitchKind, min: int, max: int, min': int, max': int)
    requires Extremes(all, kind, min, max) && Extremes(all, kind, min', max')
    ensures min <= min' && max' <= max
  {
    var i :| 0 <= i < |all| && KeyIs(all[i], kind, min');
    var j :| 0 <= j < |all| && KeyIs(all[j], kind, max');
    KeyWithinIs(all[i], kind, min, max, min');
    KeyWithinIs(all[j], kind, min, max, max');
  }

  function SimpleOffset(t: SwitchType, table: SimpleJumpTable, v: Scrutinee, defaultOffset: int): int
    reads table
  {
    if t.SwitchImmediate? then SwitchImm(table, v, defaultOffset) else SwitchChar(table, v, defaultOffset)
  }

  lemma SimpleSends(t: SwitchType, table: SimpleJumpTable, literals: seq<Literal>, locations: seq<nat>, switchAddress: nat, min: int, max: int, defaultLocation: nat)
    requires (t.SwitchImmediate? || t.SwitchCharacter?) && Chosen(t, literals, min, max) && |locations| == |literals|
    requires table.min == min && |table.branchOffsets| == max - min + 1 && forall k | 0 <= k < |literals| :: locations[k] > switchAddress
    requires Holds(table.branchOffsets, min, literals, if t.SwitchImmediate? then Numbers else Strings, locations, switchAddress)
    ensures forall v :: Destination(t, literals, locations, defaultLocation, v) == switchAddress + SimpleOffset(t, table, v, defaultLocation - switchAddress)
  {
    hide Holds, SwitchImm, SwitchChar, FirstMatch, Target;
    forall v ensures Destination(t, literals, locations, defaultLocation, v) == switchAddress + SimpleOffset(t, table, v, defaultLocation - switchAddress) {
      if t.SwitchImmediate? {
        ImmediateSwitchIff(table, literals, locations, switchAddress, max, defaultLocation, v);
      } else {
        CharacterSwitch(table, literals, locations, switchAddress, max, defaultLocation, v);
      }
    }
  }

  lemma StringsSend(table: StringJumpTable, literals: seq<Literal>, locations: seq<nat>, switchAddress: nat, defaultLocation: nat)
    requires |locations| == |literals| && Chosen(SwitchString, literals, 0, 0)
    requires HoldsStrings(table.offsetTable, literals, locations, switchAddress)
    ensures forall v :: Destination(SwitchString, literals, locations, defaultLocation, v) == switchAddress + SwitchStringOffset(table, v, defaultLocation - switchAddress)
  {
    hide HoldsStrings, SwitchStringOffset, FirstMatch, Target;
    forall v ensures Destination(SwitchString, literals, locations, defaultLocation, v) == switchAddress + SwitchStringOffset(table, v, defaultLocation - switchAddress) {
      StringSwitch(table, literals, locations, switchAddress, defaultLocation, v);
    }
  }

  /** Labels of a block, not yet placed or used. */
  ghost predicate Unused(labels: seq<LabelID>, codeBlock: CodeBlock)
    reads labels
  {
    && (forall k | 0 <= k < |labels| :: labels[k].codeBlock == codeBlock && labels[k].unresolvedJumps == [] && labels[k].location.None?)
    && (forall j, k | 0 <= j < k < |labels| :: labels[j] != labels[k])
  }

  method NewLabels(codeBlock: CodeBlock, count: nat) returns (labels: seq<LabelID>)
    ensures |labels| == count && Unused(labels, codeBlock) && forall k | 0 <= k < count :: fresh(labels[k])
  {
    labels := [];
    for i := 0 to count
      invariant |labels| == i && Unused(labels, codeBlock) && forall k | 0 <= k < i :: fresh(labels[k])
    {
      var l := new LabelID(codeBlock, i);
      labels := labels + [l];
    }
  }

  predicate Located(labels: seq<LabelID>)
    reads labels
  {
    forall k | 0 <= k < |labels| :: labels[k].location.Some?
  }

  function Locations(labels: seq<LabelID>): (locations: seq<nat>)
    requires Located(labels)
    reads labels
    ensures |locations| == |labels| && forall k :: 0 <= k < |labels| ==> locations[k] == labels[k].location.value
  {
    seq(|labels|, k requires 0 <= k < |labels| && labels[k].location.Some? reads labels => labels[k].location.value)
  }

  class SwitchGenerator {
    const codeBlock: CodeBlock
    var switchContextStack: seq<SwitchInfo>
    var immediateSwitchJumpTables: seq<SimpleJumpTable>
    var characterSwitchJumpTables: seq<SimpleJumpTable>
    var stringSwitchJumpTables: seq<StringJumpTable>

    constructor (codeBlock: CodeBlock)
      ensures this.codeBlock == codeBlock && switchContextStack == []
    {
      this.codeBlock := codeBlock;
      switchContextStack, immediateSwitchJumpTables, characterSwitchJumpTables, stringSwitchJumpTables := [], [], [], [];
    }

    /** A finished switch instruction stands at `a`: its index is one of the list of tables
        that its opcode uses. */
    predicate SwitchAt(a: nat)
      reads this, codeBlock
    {
      var words := codeBlock.instructions;
      && a + 3 < |words| && words[a + 1].Num? && words[a + 2].Num?
      && if words[a] == Opc(OpSwitchImm) then 0 <= words[a + 1].n < |immediateSwitchJumpTables|
         else if words[a] == Opc(OpSwitchChar) then 0 <= words[a + 1].n < |characterSwitchJumpTables|
         else words[a] == Opc(OpSwitchString) && 0 <= words[a + 1].n < |stringSwitchJumpTables|
    }

    /** Where the instruction at `a` goes, as its words say: the distances count from its
        last word. */
    function Dispatch(a: nat, v: Scrutinee): int
      requires SwitchAt(a)
      reads this, codeBlock, immediateSwitchJumpTables, characterSwitchJumpTables, stringSwitchJumpTables
    {
      var words := codeBlock.instructions;
      var index, defaultOffset := words[a + 1].n, words[a + 2].n;
      a + 3 + if words[a] == Opc(OpSwitchImm) then SwitchImm(immediateSwitchJumpTables[index], v, defaultOffset)
              else if words[a] == Opc(OpSwitchChar) then SwitchChar(characterSwitchJumpTables[index], v, defaultOffset)
              else SwitchStringOffset(stringSwitchJumpTables[index], v, defaultOffset)
    }

    method BeginSwitch(scrutineeRegister: int, t: SwitchType)
      requires !t.SwitchNone?
      modifies this`switchContextStack, codeBlock`instructions
      ensures codeBlock.instructions == old(codeBlock.instructions) + [Opc(SwitchOp(t)), Num(0), Num(0), Num(scrutineeRegister)]
      ensures switchContextStack == old(switchContextStack) + [SwitchInfo(|old(codeBlock.instructions)|, t)]
    {
      var info := SwitchInfo(|codeBlock.instructions|, t);
      codeBlock.instructions := codeBlock.instructions + [Opc(SwitchOp(t))];
      codeBlock.instructions := codeBlock.instructions + [Num(0), Num(0)]; // for the table index and the default
      codeBlock.instructions := codeBlock.instructions + [Num(scrutineeRegister)];
      switchContextStack := switchContextStack + [info];
    }

    method EmitStatements(s: Statements)
      modifies this`immediateSwitchJumpTables, this`characterSwitchJumpTables, this`stringSwitchJumpTables, codeBlock`instructions
      ensures codeBlock.instructions == old(codeBlock.instructions) + s.words
    {
      codeBlock.instructions := codeBlock.instructions + s.words;
      immediateSwitchJumpTables := immediateSwitchJumpTables + s.immediate;
      characterSwitchJumpTables := characterSwitchJumpTables + s.character;
      stringSwitchJumpTables := stringSwitchJumpTables + s.strings;
    }

    /** A clause: its label, and its statements. */
    method EmitClause(label_: LabelID, s: Statements)
      requires label_.codeBlock == codeBlock && label_.unresolvedJumps == []
      modifies this`immediateSwitchJumpTables, this`characterSwitchJumpTables, this`stringSwitchJumpTables
      modifies label_`location, codeBlock`instructions, codeBlock`labels
      ensures label_.location == Some(|old(codeBlock.instructions)|)
      ensures codeBlock.instructions == old(codeBlock.instructions) + s.words
    {
      label_.SetLocation(|codeBlock.instructions|);
      assert codeBlock.instructions == old(codeBlock.instructions);
      EmitStatements(s);
    }

    /** Clauses in order, each with its label. */
    method EmitClauses(clauses: seq<Clause>, labels: seq<LabelID>)
      requires |labels| == |clauses| && Unused(labels, codeBlock)
      modifies this`immediateSwitchJumpTables, this`characterSwitchJumpTables, this`stringSwitchJumpTables
      modifies labels`location, codeBlock`instructions, codeBlock`labels
      ensures old(codeBlock.instructions) <= codeBlock.instructions
      ensures Laid(codeBlock.instructions, labels, clauses, |old(codeBlock.instructions)|)
    {
      hide StandAt;
      ghost var from := |codeBlock.instructions|;
      for i := 0 to |clauses|
        invariant old(codeBlock.instructions) <= codeBlock.instructions
        invariant forall k | i <= k < |labels| :: labels[k].location.None?
        invariant forall k | 0 <= k < i :: LaidAt(codeBlock.instructions, labels[k].location, clauses[k], from)
      {
        ghost var words := codeBlock.instructions;
        EmitClause(labels[i], clauses[i].statements);
        JustEmitted(words, clauses[i].statements.words);
        forall k | 0 <= k < i ensures LaidAt(codeBlock.instructions, labels[k].location, clauses[k], from) {
          StandStill(words, codeBlock.instructions, 0, labels[k].location.value, clauses[k].statements.words);
        }
      }
    }

    /** The clauses around the default clause; without one, its label ends the block. */
    method EmitBody(list1: seq<Clause>, labels1: seq<LabelID>, defaultClause: Option<Statements>, defaultLabel: LabelID, list2: seq<Clause>, labels2: seq<LabelID>)
      requires |labels1| == |list1| && |labels2| == |list2| && Unused(labels1, codeBlock) && Unused(labels2, codeBlock) && Unused([defaultLabel], codeBlock)
      requires Apart(labels1, defaultLabel, labels2)
      modifies this`immediateSwitchJumpTables, this`characterSwitchJumpTables, this`stringSwitchJumpTables
      modifies labels1`location, labels2`location, defaultLabel`location, codeBlock`instructions, codeBlock`labels
      ensures old(codeBlock.instructions) <= codeBlock.instructions
      ensures Laid(codeBlock.instructions, labels1, list1, |old(codeBlock.instructions)|)
      ensures Laid(codeBlock.instructions, labels2, list2, |old(codeBlock.instructions)|)
      ensures defaultLabel.location.Some? && |old(codeBlock.instructions)| <= defaultLabel.location.value
      ensures if defaultClause.Some? then StandAt(codeBlock.instructions, defaultLabel.location.value, defaultClause.value.words)
              else defaultLabel.location.value == |codeBlock.instructions|
    {
      hide StandAt, LaidAt;
      assert [defaultLabel][0] == defaultLabel;
      ghost var from := |codeBlock.instructions|;
      EmitClauses(list1, labels1);
      ghost var first := codeBlock.instructions;
      if defaultClause.Some? {
        EmitClause(defaultLabel, defaultClause.value);
        JustEmitted(first, defaultClause.value.words);
      }
      LaidStill(first, codeBlock.instructions, labels1, list1, from);
      ghost var second := codeBlock.instructions;
      EmitClauses(list2, labels2);
      LaidStill(second, codeBlock.instructions, labels1, list1, from);
      LaidFrom(codeBlock.instructions, labels2, list2, |second|, from);
      if defaultClause.None? {
        ghost var third := codeBlock.instructions;
        defaultLabel.SetLocation(|codeBlock.instructions|);
        assert codeBlock.instructions == third;
      } else {
        StandStill(second, codeBlock.instructions, 0, defaultLabel.location.value, defaultClause.value.words);
      }
    }

    method MakeStrings(literals: seq<Literal>, locations: seq<nat>, switchAddress: nat, min: int, max: int, ghost defaultLocation: nat)
      returns (jumpTable: StringJumpTable)
      requires |locations| == |literals| && Chosen(SwitchString, literals, min, max)
      ensures fresh(jumpTable)
      ensures forall v :: Destination(SwitchString, literals, locations, defaultLocation, v) == switchAddress + SwitchStringOffset(jumpTable, v, defaultLocation - switchAddress)
    {
      jumpTable := new StringJumpTable();
      jumpTable.Prepare(switchAddress, locations, literals);
      StringsSend(jumpTable, literals, locations, switchAddress, defaultLocation);
    }

    method MakeSimple(t: SwitchType, literals: seq<Literal>, locations: seq<nat>, switchAddress: nat, min: int, max: int, ghost defaultLocation: nat)
      returns (jumpTable: SimpleJumpTable)
      requires (t.SwitchImmediate? || t.SwitchCharacter?) && |locations| == |literals| && Chosen(t, literals, min, max)
      requires forall k | 0 <= k < |locations| :: locations[k] > switchAddress
      ensures fresh(jumpTable)
      ensures forall v :: Destination(t, literals, locations, defaultLocation, v) == switchAddress + SimpleOffset(t, jumpTable, v, defaultLocation - switchAddress)
    {
      hide Holds, Destination, SimpleOffset;
      jumpTable := new SimpleJumpTable();
      jumpTable.Prepare(if t.SwitchImmediate? then Numbers else Strings, switchAddress, locations, literals, min, max);
      SimpleSends(t, jumpTable, literals, locations, switchAddress, min, max, defaultLocation);
    }

    /** Makes the table of the switch that was begun last, now that its clauses are placed. */
    method EndSwitch(labels: seq<LabelID>, literals: seq<Literal>, defaultLabel: LabelID, min: int, max: int)
      requires switchContextStack != []
      requires var info := switchContextStack[|switchContextStack| - 1]; var a, t := info.opcodeOffset, info.switchType;
        && a + 3 < |codeBlock.instructions| && !t.SwitchNone? && codeBlock.instructions[a] == Opc(SwitchOp(t))
        && |labels| == |literals| && defaultLabel.location.Some?
        && Located(labels) && (forall k | 0 <= k < |labels| :: labels[k].location.value > a + 3)
        && Chosen(t, literals, min, max)
      modifies this, codeBlock`instructions, defaultLabel`unresolvedJumps
      ensures switchContextStack == old(switchContextStack)[..|old(switchContextStack)| - 1]
      ensures var info := old(switchContextStack)[|old(switchContextStack)| - 1]; var a, t := info.opcodeOffset, info.switchType;
        && |codeBlock.instructions| == |old(codeBlock.instructions)|
        && (forall j | 0 <= j < |codeBlock.instructions| && j != a + 1 && j != a + 2 :: codeBlock.instructions[j] == old(codeBlock.instructions)[j])
        && SwitchAt(a)
        && forall v :: Dispatch(a, v) == Destination(t, literals, Locations(labels), defaultLabel.location.value, v)
    {
      hide Destination, SwitchImm, SwitchChar, SwitchStringOffset, Chosen;
      var switchInfo := switchContextStack[|switchContextStack| - 1];
      switchContextStack := switchContextStack[..|switchContextStack| - 1];
      var a, t, locations := switchInfo.opcodeOffset, switchInfo.switchType, Locations(labels);
      var defaultOffset := defaultLabel.OffsetFrom(a + 3);
      var tableIndex;
      if t.SwitchString? {
        var jumpTable := MakeStrings(literals, locations, a + 3, min, max, defaultLabel.location.value);
        tableIndex := |stringSwitchJumpTables|;
        stringSwitchJumpTables := stringSwitchJumpTables + [jumpTable];
      } else {
        var jumpTable := MakeSimple(t, literals, locations, a + 3, min, max, defaultLabel.location.value);
        if t.SwitchImmediate? {
          tableIndex := |immediateSwitchJumpTables|;
          immediateSwitchJumpTables := immediateSwitchJumpTables + [jumpTable];
        } else {
          tableIndex := |characterSwitchJumpTables|;
          characterSwitchJumpTables := characterSwitchJumpTables + [jumpTable];
        }
      }
      codeBlock.instructions := codeBlock.instructions[a + 1 := Num(tableIndex)][a + 2 := Num(defaultOffset)];
    }

    /** The switch instruction, its clauses, and its table. */
    method EmitTable(scrutineeRegister: int, t: SwitchType, literals: seq<Literal>, min: int, max: int,
                     list1: seq<Clause>, labels1: seq<LabelID>, defaultClause: Option<Statements>, defaultLabel: LabelID, list2: seq<Clause>, labels2: seq<LabelID>)
      requires !t.SwitchNone? && literals == Literals(list1 + list2) && Chosen(t, literals, min, max)
      requires |labels1| == |list1| && |labels2| == |list2| && Unused(labels1, codeBlock) && Unused(labels2, codeBlock) && Unused([defaultLabel], codeBlock)
      requires Apart(labels1, defaultLabel, labels2)
      modifies this, codeBlock`instructions, codeBlock`labels, labels1`location, labels2`location, defaultLabel
      ensures var a, words := |old(codeBlock.instructions)|, codeBlock.instructions;
        && SwitchAt(a) && words[a + 3] == Num(scrutineeRegister) && old(codeBlock.instructions) <= words
        && Laid(words, labels1, list1, a + 4) && Laid(words, labels2, list2, a + 4) && defaultLabel.location.Some?
        && Located(labels1 + labels2)
        && (forall v :: Dispatch(a, v) == Destination(t, literals, Locations(labels1 + labels2), defaultLabel.location.value, v))
        && (if defaultClause.Some? then StandAt(words, defaultLabel.location.value, defaultClause.value.words)
            else defaultLabel.location.value == |words|)
      ensures switchContextStack == old(switchContextStack)
    {
      hide Destination, SwitchGenerator.Dispatch, StandAt, Chosen, SwitchOp, Laid, LaidAt, Unused;
      ghost var a := |codeBlock.instructions|;
      BeginSwitch(scrutineeRegister, t);
      EmitBody(list1, labels1, defaultClause, defaultLabel, list2, labels2);
      ghost var words := codeBlock.instructions;
      LaidPast(words, labels1, list1, labels2, list2, a + 4);
      EndSwitch(labels1 + labels2, literals, defaultLabel, min, max);
      LaidStill(words, codeBlock.instructions, labels1, list1, a + 4);
      LaidStill(words, codeBlock.instructions, labels2, list2, a + 4);
      if defaultClause.Some? {
        StandStill(words, codeBlock.instructions, a + 4, defaultLabel.location.value, defaultClause.value.words);
      }
    }

    /** Emits the clauses around the default clause, if the clauses fit a table.  Then the
        switch goes to the statements of the clause that trying the clauses in order arrives
        at, but for -0. */
    method EmitCodeForBlock(scrutineeRegister: int, list1: seq<Clause>, defaultClause: Option<Statements>, list2: seq<Clause>)
      returns (t: SwitchType, ghost locations: seq<nat>, ghost defaultLocation: nat)
      modifies this, codeBlock`instructions, codeBlock`labels
      ensures var clauses, a, words := list1 + list2, |old(codeBlock.instructions)|, codeBlock.instructions;
        if TableFor(Literals(clauses)).SwitchNone? then t.SwitchNone? && words == old(codeBlock.instructions)
        else
          && t == TableFor(Literals(clauses))
          && SwitchAt(a) && words[a + 3] == Num(scrutineeRegister) && old(codeBlock.instructions) <= words
          && |locations| == |clauses|
          && (forall v :: Dispatch(a, v) == Destination(t, Literals(clauses), locations, defaultLocation, v))
          && (forall k | 0 <= k < |clauses| :: StandAt(words, locations[k], clauses[k].statements.words))
          && (if defaultClause.Some? then StandAt(words, defaultLocation, defaultClause.value.words) else defaultLocation == |words|)
      ensures switchContextStack == old(switchContextStack)
    {
      hide Destination, SwitchGenerator.Dispatch, SwitchOp, StandAt, Chosen, Laid, LaidAt, TableFor;
      var literals, min, max;
      t, literals, min, max := ChooseTable(Literals(list1), Literals(list2));
      assert Literals(list1) + Literals(list2) == Literals(list1 + list2);
      if t.SwitchNone? {
        return t, [], 0;
      }
      var labels1 := NewLabels(codeBlock, |list1|);
      var labels2 := NewLabels(codeBlock, |list2|);
      var defaultLabel := new LabelID(codeBlock, 0);
      EmitTable(scrutineeRegister, t, literals, min, max, list1, labels1, defaultClause, defaultLabel, list2, labels2);
      locations, defaultLocation := Locations(labels1 + labels2), defaultLabel.location.value;
      LaidOut(codeBlock.instructions, labels1, list1, labels2, list2, |old(codeBlock.instructions)| + 4);
    }
  }

  ghost predicate Apart(labels1: seq<LabelID>, label_: LabelID, labels2: seq<LabelID>) {
    && label_ !in labels1 && label_ !in labels2
    && (forall k | 0 <= k < |labels2| :: labels2[k] !in labels1)
    && (forall k | 0 <= k < |labels1| :: labels1[k] !in labels2)
  }

  lemma JustEmitted(words: seq<Word>, ws: seq<Word>)
    ensures StandAt(words + ws, |words|, ws)
  {
  }

  lemma LaidFrom(words: seq<Word>, labels: seq<LabelID>, clauses: seq<Clause>, from: nat, before: nat)
    requires |labels| == |clauses| && Laid(words, labels, clauses, from) && before <= from
    ensures Laid(words, labels, clauses, before)
  {
    hide StandAt;
    forall k | 0 <= k < |clauses| ensures LaidAt(words, labels[k].location, clauses[k], before) {
      assert LaidAt(words, labels[k].location, clauses[k], from);
    }
  }

  lemma LaidOut(words: seq<Word>, labels1: seq<LabelID>, list1: seq<Clause>, labels2: seq<LabelID>, list2: seq<Clause>, from: nat)
    requires |labels1| == |list1| && |labels2| == |list2| && Laid(words, labels1, list1, from) && Laid(words, labels2, list2, from)
    ensures var labels, clauses := labels1 + labels2, list1 + list2;
      forall k | 0 <= k < |clauses| :: labels[k].location.Some? && from <= labels[k].location.value
        && StandAt(words, labels[k].location.value, clauses[k].statements.words)
  {
    hide StandAt;
    var labels, clauses := labels1 + labels2, list1 + list2;
    forall k | 0 <= k < |clauses| ensures LaidAt(words, labels[k].location, clauses[k], from) {
      assert if k < |list1| then LaidAt(words, labels1[k].location, list1[k], from) else LaidAt(words, labels2[k - |list1|].location, list2[k - |list1|], from);
    }
  }

  lemma LaidPast(words: seq<Word>, labels1: seq<LabelID>, list1: seq<Clause>, labels2: seq<LabelID>, list2: seq<Clause>, from: nat)
    requires |labels1| == |list1| && |labels2| == |list2| && Laid(words, labels1, list1, from) && Laid(words, labels2, list2, from)
    ensures Located(labels1 + labels2) && forall k | 0 <= k < |labels1 + labels2| :: (labels1 + labels2)[k].location.value >= from
  {
    LaidOut(words, labels1, list1, labels2, list2, from);
  }
}
