/** What the parser knows about the type of an expression, and the fusion of `typeof` with
    a comparison: two places where a shortcut is right under a condition only. */
module ResultTypes {
  import opened Bytecode

  // ----------------------------------------------------------- result types

  datatype Kind = NumberKind | StringKind | NullKind | BoolKind | OtherKind

  /** The bits of a type: the kinds a value may be of, and whether a number cell holding it
      may be overwritten. */
  datatype ResultType = ResultType(kinds: set<Kind>, isReusable: bool)
  {
    predicate DefinitelyIsNumber() { kinds == {NumberKind} }

    predicate IsNotNumber() { NumberKind !in kinds }
  }

  function ForAdd(op1: ResultType, op2: ResultType): ResultType {
    if op1.DefinitelyIsNumber() && op2.DefinitelyIsNumber() then ResultType({NumberKind}, true)
    else if op1.IsNotNumber() || op2.IsNotNumber() then ResultType({StringKind}, false)
    else ResultType({NumberKind, StringKind}, true)
  }

  /** The kinds the sum of two values can be of; other values may convert to strings. */
  function SumKinds(a: Kind, b: Kind): set<Kind> {
    if a.StringKind? || b.StringKind? then {StringKind}
    else if a.OtherKind? || b.OtherKind? then {NumberKind, StringKind}
    else {NumberKind}
  }

  ghost predicate SoundForAdd(op1: ResultType, op2: ResultType) {
    forall a, b | a in op1.kinds && b in op2.kinds :: SumKinds(a, b) <= ForAdd(op1, op2).kinds
  }

  /** The type of a sum is right exactly when both operands may be numbers, or one of them
      is known to be a string; null plus a number, say, is no string. */
  lemma ForAddSoundIff(op1: ResultType, op2: ResultType)
    ensures SoundForAdd(op1, op2) <==>
      (!op1.IsNotNumber() && !op2.IsNotNumber()) || op1.kinds <= {StringKind} || op2.kinds <= {StringKind}
  {
    if !(op1.kinds <= {StringKind}) && !(op2.kinds <= {StringKind}) && (op1.IsNotNumber() || op2.IsNotNumber()) {
      var a :| a in op1.kinds && !a.StringKind?;
      var b :| b in op2.kinds && !b.StringKind?;
      assert NumberKind in SumKinds(a, b) && !(SumKinds(a, b) <= ForAdd(op1, op2).kinds);
    }
  }

  /** A sum is known to be a number when both operands are, and its cell may be overwritten
      exactly when it may be a number. */
  lemma ForAddNumber(op1: ResultType, op2: ResultType)
    ensures ForAdd(op1, op2).DefinitelyIsNumber() <==> op1.DefinitelyIsNumber() && op2.DefinitelyIsNumber()
    ensures ForAdd(op1, op2).isReusable <==> NumberKind in ForAdd(op1, op2).kinds
  {
    assert StringKind !in {NumberKind} && NumberKind !in {StringKind};
  }

  lemma NullPlusNumber()
    ensures !SoundForAdd(ResultType({NullKind}, false), ResultType({NumberKind}, false))
  {
    ForAddSoundIff(ResultType({NullKind}, false), ResultType({NumberKind}, false));
    assert NullKind in {NullKind} && NumberKind in {NumberKind};
  }

  // ---------------------------------------------------------- typeof fusion

  datatype Constant = StringConstant(s: string) | OtherConstant(id: nat)

  const TYPE_NAMES := {"undefined", "boolean", "number", "string", "object", "function"}

  /** Is `typeof x == register` replaced by a test against the name found in the pool?  The
      pool is indexed with the register number. */
  predicate Fuses(pool: seq<Constant>, register: nat) {
    register < |pool| && pool[register].StringConstant? && pool[register].s in TYPE_NAMES
  }

  /** Constant k is in register numVars + k; other registers hold anything. */
  predicate RegistersHold(pool: seq<Constant>, numVars: nat, registers: map<nat, Constant>) {
    forall r | numVars <= r < numVars + |pool| :: r in registers && registers[r] == pool[r - numVars]
  }

  /** The fused test gives what the comparison gives, whatever the registers and the type. */
  ghost predicate FusionRight(pool: seq<Constant>, numVars: nat, register: nat)
    requires Fuses(pool, register)
  {
    forall registers: map<nat, Constant>, typeName: string |
      RegistersHold(pool, numVars, registers) && register in registers && typeName in TYPE_NAMES ::
      (typeName == pool[register].s) == (StringConstant(typeName) == registers[register])
  }

  /** A fusion is right exactly when the register is that of a constant, and the pool holds
      the same string at its register number. */
  lemma FusionRightIff(pool: seq<Constant>, numVars: nat, register: nat)
    requires Fuses(pool, register)
    ensures FusionRight(pool, numVars, register) <==> register >= numVars && pool[register - numVars] == pool[register]
  {
    if register >= numVars && pool[register - numVars] == pool[register] {
      forall registers: map<nat, Constant>, typeName: string
        | RegistersHold(pool, numVars, registers) && register in registers && typeName in TYPE_NAMES
        ensures (typeName == pool[register].s) == (StringConstant(typeName) == registers[register])
      {
        assert registers[register] == pool[register - numVars];
      }
    } else {
      WrongFusion(pool, numVars, register);
    }
  }

  ghost function Laid(pool: seq<Constant>, numVars: nat): (registers: map<nat, Constant>)
    ensures RegistersHold(pool, numVars, registers)
  {
    if pool == [] then map[]
    else Laid(pool[..|pool| - 1], numVars)[numVars + |pool| - 1 := pool[|pool| - 1]]
  }

  lemma WrongFusion(pool: seq<Constant>, numVars: nat, register: nat)
    requires Fuses(pool, register) && (register < numVars || pool[register - numVars] != pool[register])
    ensures !FusionRight(pool, numVars, register)
  {
    var constants := Laid(pool, numVars);
    var registers := if register < numVars then constants[register := OtherConstant(0)] else constants;
    assert RegistersHold(pool, numVars, registers) && register in registers && pool[register].s in TYPE_NAMES;
    assert StringConstant(pool[register].s) != registers[register];
  }

  /** Fusion is right whatever the pool exactly in code without variables. */
  lemma FusionRightForAllPoolsIff(numVars: nat)
    ensures (forall pool, register | Fuses(pool, register) :: FusionRight(pool, numVars, register)) <==> numVars == 0
  {
    if numVars == 0 {
      forall pool, register | Fuses(pool, register) ensures FusionRight(pool, numVars, register) {
        FusionRightIff(pool, numVars, register);
      }
    } else {
      var pool := [StringConstant("undefined")];
      assert Fuses(pool, 0);
      FusionRightIff(pool, numVars, 0);
    }
  }
}
