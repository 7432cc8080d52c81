/** Switch statements over literals, dispatched by tables.

    A table must send every value where trying the clauses in order would: to the first
    clause whose literal strictly equals it, and otherwise to the default. */
module SwitchTables {
  import opened Bytecode

  predicate IsImmediateInt(n: int) { -0x4000_0000 <= n < 0x4000_0000 }

  type Int31 = n: int | IsImmediateInt(n)

  /** `Immediate` is a number with an immediate representation; `Number` one without, that
      is no 31-bit integer or -0.  `Expression` stands for any other clause. */
  datatype Literal = Immediate(n: Int31) | Number(id: nat) | Text(s: string) | Expression

  datatype Scrutinee = ImmediateInt(n: Int31) | NegativeZero | OtherNumber | JSString(s: string) | OtherValue

  predicate StrictlyEquals(v: Scrutinee, l: Literal) {
    match l
    case Immediate(n) => v == ImmediateInt(n) || (v.NegativeZero? && n == 0)
    case Text(s) => v == JSString(s)
    case _ => false
  }

  /** The clause that trying them in order arrives at; the count of clauses for the default. */
  function FirstMatch(literals: seq<Literal>, v: Scrutinee): (k: nat)
    ensures k <= |literals|
    ensures k < |literals| ==> StrictlyEquals(v, literals[k])
    ensures forall j | 0 <= j < k :: !StrictlyEquals(v, literals[j])
  {
    if literals == [] then 0
    else if StrictlyEquals(v, literals[0]) then 0
    else 1 + FirstMatch(literals[1..], v)
  }

  lemma FirstMatchIs(literals: seq<Literal>, v: Scrutinee, k: nat)
    requires k <= |literals| && (k < |literals| ==> StrictlyEquals(v, literals[k]))
    requires forall j | 0 <= j < k :: !StrictlyEquals(v, literals[j])
    ensures FirstMatch(literals, v) == k
  {
  }

  // ------------------------------------------------------ choosing a table

  datatype SwitchType = SwitchNone | SwitchImmediate | SwitchCharacter | SwitchString

  datatype SwitchKind = Unset | Numbers | Strings | Neither

  const INT_MAX := 0x7FFF_FFFF
  const INT_MIN := -0x8000_0000

  /** The key of a clause in a simple table. */
  predicate KeyIs(l: Literal, kind: SwitchKind, key: int) {
    match kind
    case Numbers => l.Immediate? && l.n == key
    case Strings => l.Text? && |l.s| == 1 && l.s[0] as int == key
    case _ => false
  }

  predicate KeyWithin(l: Literal, kind: SwitchKind, min: int, max: int) {
    match kind
    case Numbers => l.Immediate? && min <= l.n <= max
    case Strings => l.Text? && |l.s| == 1 && min <= l.s[0] as int <= max
    case _ => false
  }

  predicate OfKind(l: Literal, kind: SwitchKind) {
    match kind
    case Numbers => l.Immediate?
    case Strings => l.Text?
    case _ => false
  }

  predicate AllOf(literals: seq<Literal>, kind: SwitchKind) {
    forall k | 0 <= k < |literals| :: OfKind(literals[k], kind)
  }

  predicate AllSingle(literals: seq<Literal>) {
    forall k | 0 <= k < |literals| :: literals[k].Text? ==> |literals[k].s| == 1
  }

  /** Every clause has a key; `min` and `max` are the least and the greatest. */
  ghost predicate Extremes(literals: seq<Literal>, kind: SwitchKind, min: int, max: int) {
    && (forall k | 0 <= k < |literals| :: KeyWithin(literals[k], kind, min, max))
    && (exists k :: 0 <= k < |literals| && KeyIs(literals[k], kind, min))
    && (exists k :: 0 <= k < |literals| && KeyIs(literals[k], kind, max))
  }

  /** What is known of the literals read so far, out of `all`. */
  ghost predicate Read(all: seq<Literal>, literals: seq<Literal>, kind: SwitchKind, singleCharacter: bool, min: int, max: int) {
    && (kind.Unset? ==> all == [] && singleCharacter && min == INT_MAX && max == INT_MIN)
    && (kind.Neither? ==> !AllOf(all, Numbers) && !AllOf(all, Strings))
    && (!kind.Neither? ==> literals == all)
    && (kind.Numbers? || kind.Strings? ==> all != [] && AllOf(all, kind) && (singleCharacter <==> AllSingle(all)))
    && (kind.Numbers? ==> singleCharacter)
    && (kind.Numbers? || (kind.Strings? && singleCharacter) ==> Extremes(all, kind, min, max))
  }

  lemma ReadKey(all: seq<Literal>, kind: SwitchKind, singleCharacter: bool, min: int, max: int, l: Literal, kind': SwitchKind, key: int)
    requires Read(all, all, kind, singleCharacter, min, max) && (kind.Unset? || kind == kind') && OfKind(l, kind')
    requires singleCharacter && KeyIs(l, kind', key) && INT_MIN < key < INT_MAX
    ensures Read(all + [l], all + [l], kind', true, if key < min then key else min, if key > max then key else max)
  {
    var after := all + [l];
    assert after[|all|] == l;
    assert AllSingle(after);
    assert AllOf(after, kind');
    if !kind.Unset? {
      var i :| 0 <= i < |all| && KeyIs(all[i], kind, min);
      var j :| 0 <= j < |all| && KeyIs(all[j], kind, max);
      assert KeyIs(after[i], kind', min) && KeyIs(after[j], kind', max);
    }
  }

  lemma ReadLong(all: seq<Literal>, kind: SwitchKind, singleCharacter: bool, min: int, max: int, l: Literal)
    requires Read(all, all, kind, singleCharacter, min, max) && (kind.Unset? || kind.Strings?) && l.Text?
    requires !(singleCharacter && |l.s| == 1)
    ensures Read(all + [l], all + [l], Strings, false, min, max)
  {
    var after := all + [l];
    assert after[|all|] == l;
    assert AllOf(after, Strings);
    if !singleCharacter {
      var k :| 0 <= k < |all| && all[k].Text? && |all[k].s| != 1;
      assert after[k] == all[k];
    }
  }

  /** A literal that cannot stand beside those read. */
  lemma ReadMixed(all: seq<Literal>, rest: seq<Literal>, kind: SwitchKind, singleCharacter: bool, min: int, max: int, l: Literal)
    requires Read(all, all, kind, singleCharacter, min, max) && !(l.Immediate? && kind in {Unset, Numbers}) && !(l.Text? && kind in {Unset, Strings})
    ensures !AllOf(all + [l] + rest, Numbers) && !AllOf(all + [l] + rest, Strings)
  {
    var whole := all + [l] + rest;
    assert whole[|all|] == l;
    if all != [] { assert whole[0] == all[0]; }
    if kind.Neither? { StillMixed(all, [l] + rest); assert all + ([l] + rest) == whole; }
  }

  lemma StillMixed(all: seq<Literal>, rest: seq<Literal>)
    requires !AllOf(all, Numbers) && !AllOf(all, Strings)
    ensures !AllOf(all + rest, Numbers) && !AllOf(all + rest, Strings)
  {
    var i :| 0 <= i < |all| && !OfKind(all[i], Numbers);
    var j :| 0 <= j < |all| && !OfKind(all[j], Strings);
    assert (all + rest)[i] == all[i] && (all + rest)[j] == all[j];
  }

  /** `all` are the literals of the clauses before `list`. */
  method ProcessClauseList(list: seq<Literal>, literals: seq<Literal>, kind: SwitchKind, singleCharacter: bool, min: int, max: int, ghost all: seq<Literal>)
    returns (literals': seq<Literal>, kind': SwitchKind, singleCharacter': bool, min': int, max': int)
    requires Read(all, literals, kind, singleCharacter, min, max)
    ensures Read(all + list, literals', kind', singleCharacter', min', max')
  {
    hide AllOf, AllSingle, Extremes;
    literals', kind', singleCharacter', min', max' := literals, kind, singleCharacter, min, max;
    assert all + list[..0] == all;
    for i := 0 to |list|
      invariant Read(all + list[..i], literals', kind', singleCharacter', min', max')
      invariant i > 0 ==> !kind'.Neither?
      invariant i == 0 ==> kind' == kind
    {
      var l := list[i];
      ghost var before, single, least, most := all + list[..i], singleCharacter', min', max';
      assert before + [l] == all + list[..i + 1] && before + [l] + list[i + 1..] == all + list;
      literals' := literals' + [l];
      match l
      case Immediate(n) =>
        if kind'.Strings? || kind'.Neither? {
          Unfit(before, list[i + 1..], literals'[..|literals'| - 1], kind', single, least, most, l);
          kind' := Neither;
          return;
        }
        ReadKey(before, kind', single, least, most, l, Numbers, n);
        min' := if n < min' then n else min';
        max' := if n > max' then n else max';
        kind' := Numbers;
      case Number(_) =>
        Unfit(before, list[i + 1..], literals'[..|literals'| - 1], kind', single, least, most, l);
        kind' := Neither;
        return;
      case Text(s) =>
        if kind'.Numbers? || kind'.Neither? {
          Unfit(before, list[i + 1..], literals'[..|literals'| - 1], kind', single, least, most, l);
          kind' := Neither;
          return;
        }
        singleCharacter' := singleCharacter' && |s| == 1;
        if singleCharacter' {
          var c := s[0] as int;
          ReadKey(before, kind', single, least, most, l, Strings, c);
          min' := if c < min' then c else min';
          max' := if c > max' then c else max';
        } else {
          ReadLong(before, kind', single, least, most, l);
        }
        kind' := Strings;
      case Expression =>
        Unfit(before, list[i + 1..], literals'[..|literals'| - 1], kind', single, least, most, l);
        kind' := Neither;
        return;
    }
    assert list[..|list|] == list;
  }

  lemma Unfit(all: seq<Literal>, rest: seq<Literal>, literals: seq<Literal>, kind: SwitchKind, singleCharacter: bool, min: int, max: int, l: Literal)
    requires Read(all, literals, kind, singleCharacter, min, max) && !(l.Immediate? && kind in {Unset, Numbers}) && !(l.Text? && kind in {Unset, Strings})
    ensures !AllOf(all + [l] + rest, Numbers) && !AllOf(all + [l] + rest, Strings)
  {
    hide AllOf, Extremes, AllSingle;
    if kind.Neither? {
      StillMixed(all, [l] + rest);
      assert all + ([l] + rest) == all + [l] + rest;
    } else {
      ReadMixed(all, rest, kind, singleCharacter, min, max, l);
    }
  }

  /** Exactly when a table is chosen, and which: the clauses must be all integers or all
      strings, and the keys of a simple table must lie densely within 1001. */
  method TryOptimizedSwitch(list1: seq<Literal>, list2: seq<Literal>) returns (t: SwitchType, literals: seq<Literal>, min: int, max: int)
    ensures !t.SwitchNone? ==> literals == list1 + list2
    ensures var all := list1 + list2;
      && (all != [] && (AllOf(all, Numbers) || (AllOf(all, Strings) && AllSingle(all))) ==> Extremes(all, if AllOf(all, Numbers) then Numbers else Strings, min, max))
      && t == if all == [] then SwitchNone
              else if AllOf(all, Numbers) then if Dense(min, max, |all|) then SwitchImmediate else SwitchNone
              else if AllOf(all, Strings) then if AllSingle(all) && Dense(min, max, |all|) then SwitchCharacter else SwitchString
              else SwitchNone
  {
    var kind, singleCharacter;
    literals, kind, singleCharacter, min, max := ProcessClauseList(list1, [], Unset, true, INT_MAX, INT_MIN, []);
    assert [] + list1 == list1;
    literals, kind, singleCharacter, min, max := ProcessClauseList(list2, literals, kind, singleCharacter, min, max, list1);
    OneKind(list1 + list2);
    if kind.Unset? || kind.Neither? {
      t := SwitchNone;
      return;
    }
    if kind.Numbers? {
      t := if min <= max && max - min <= 1000 && (max - min) / |literals| < 10 then SwitchImmediate else SwitchNone;
    } else if singleCharacter && min <= max && max - min <= 1000 && (max - min) / |literals| < 10 {
      t := SwitchCharacter;
    } else {
      t := SwitchString;
    }
  }

  lemma OneKind(all: seq<Literal>)
    ensures all != [] ==> !(AllOf(all, Numbers) && AllOf(all, Strings))
  {
    if all != [] { assert !OfKind(all[0], Numbers) || !OfKind(all[0], Strings); }
  }

  predicate Dense(min: int, max: int, count: nat)
    requires count > 0
  {
    min <= max && max - min <= 1000 && (max - min) / count < 10
  }

  // ---------------------------------------------------------- simple tables

  /** The first clause whose key is `key`, the count of clauses if there is none. */
  function FirstKey(literals: seq<Literal>, kind: SwitchKind, key: int): (k: nat)
    ensures k <= |literals|
    ensures k < |literals| ==> KeyIs(literals[k], kind, key)
    ensures forall j | 0 <= j < k :: !KeyIs(literals[j], kind, key)
  {
    if literals == [] then 0
    else if KeyIs(literals[0], kind, key) then 0
    else 1 + FirstKey(literals[1..], kind, key)
  }

  lemma {:induction false} FirstKeySnoc(literals: seq<Literal>, l: Literal, kind: SwitchKind, key: int)
    ensures FirstKey(literals + [l], kind, key) ==
      if FirstKey(literals, kind, key) < |literals| then FirstKey(literals, kind, key)
      else if KeyIs(l, kind, key) then |literals| else |literals| + 1
  {
    if literals == [] {
      assert literals + [l] == [l];
    } else {
      FirstKeySnoc(literals[1..], l, kind, key);
      assert (literals + [l])[1..] == literals[1..] + [l];
    }
  }

  /** The table from `min` on holds, for each key, the distance to the first clause with it. */
  ghost predicate Holds(offsets: seq<int>, min: int, literals: seq<Literal>, kind: SwitchKind, labels: seq<nat>, switchAddress: nat)
    requires |labels| >= |literals|
  {
    forall j | 0 <= j < |offsets| :: OffsetIs(offsets[j], FirstKey(literals, kind, min + j), |literals|, labels, switchAddress)
  }

  predicate OffsetIs(offset: int, k: nat, count: nat, labels: seq<nat>, switchAddress: nat)
    requires |labels| >= count
  {
    offset == if k < count then labels[k] - switchAddress else 0
  }

  /** Adding a clause fills its key unless an earlier clause did. */
  lemma HoldsNext(offsets: seq<int>, offsets': seq<int>, min: int, literals: seq<Literal>, kind: SwitchKind, labels: seq<nat>, switchAddress: nat, l: Literal, key: nat)
    requires |labels| > |literals| && labels[|literals|] > switchAddress && forall k | 0 <= k < |literals| :: labels[k] > switchAddress
    requires Holds(offsets, min, literals, kind, labels, switchAddress)
    requires key < |offsets| && forall j :: KeyIs(l, kind, j) <==> j == min + key
    requires offsets' == offsets[key := if offsets[key] == 0 then labels[|literals|] - switchAddress else offsets[key]]
    ensures Holds(offsets', min, literals + [l], kind, labels, switchAddress)
  {
    hide FirstKey;
    forall j | 0 <= j < |offsets'|
      ensures OffsetIs(offsets'[j], FirstKey(literals + [l], kind, min + j), |literals| + 1, labels, switchAddress)
    {
      FirstKeySnoc(literals, l, kind, min + j);
      assert OffsetIs(offsets[j], FirstKey(literals, kind, min + j), |literals|, labels, switchAddress);
    }
  }

  /** A difference taken in 32 bits and read as unsigned. */
  function UnsignedDifference(a: int, b: int): (d: nat)
    ensures 0 <= a - b < 0x1_0000_0000 ==> d == a - b
  {
    (a - b) % 0x1_0000_0000
  }

  class SimpleJumpTable {
    var branchOffsets: seq<int>
    var min: int
    var ctiOffsets: seq<nat>
    var ctiDefault: nat

    constructor ()
      ensures branchOffsets == []
    {
      branchOffsets, min, ctiOffsets, ctiDefault := [], 0, [], 0;
    }

    method Add(key: nat, offset: int)
      requires key < |branchOffsets|
      modifies this`branchOffsets
      ensures branchOffsets == old(branchOffsets)[key := if old(branchOffsets)[key] == 0 then offset else old(branchOffsets)[key]]
    {
      if branchOffsets[key] == 0 {
        branchOffsets := branchOffsets[key := offset];
      }
    }

    function OffsetForValue(value: int, defaultOffset: int): int
      reads this
    {
      var key := UnsignedDifference(value, min);
      if value >= min && key < |branchOffsets| && branchOffsets[key] != 0 then branchOffsets[key] else defaultOffset
    }

    function CtiForValue(value: int): nat
      reads this
    {
      if value >= min && UnsignedDifference(value, min) < |ctiOffsets| then ctiOffsets[UnsignedDifference(value, min)] else ctiDefault
    }

    /** `labels` are where the clauses were emitted, after the four words of the switch. */
    method Prepare(kind: SwitchKind, switchAddress: nat, labels: seq<nat>, literals: seq<Literal>, min: int, max: int)
      requires |labels| == |literals| && min <= max
      requires forall k | 0 <= k < |literals| :: KeyWithin(literals[k], kind, min, max) && labels[k] > switchAddress
      modifies this
      ensures this.min == min && |branchOffsets| == max - min + 1
      ensures Holds(branchOffsets, min, literals, kind, labels, switchAddress)
    {
      hide FirstKey, OffsetIs, KeyIs;
      this.min := min;
      branchOffsets := seq(max - min + 1, _ => 0);
      NothingHeld(branchOffsets, min, kind, labels, switchAddress);
      for i := 0 to |literals|
        invariant this.min == min && |branchOffsets| == max - min + 1
        invariant Holds(branchOffsets, min, literals[..i], kind, labels, switchAddress)
      {
        ghost var before := branchOffsets;
        var key := match literals[i] case Immediate(n) => n - min case Text(s) => s[0] as int - min case _ => 0;
        Add(key, labels[i] - switchAddress);
        KeyOf(literals[i], kind, min, max);
        HoldsNext(before, branchOffsets, min, literals[..i], kind, labels, switchAddress, literals[i], key);
        assert literals[..i + 1] == literals[..i] + [literals[i]];
      }
      assert literals[..|literals|] == literals;
    }
  }

  lemma NothingHeld(offsets: seq<int>, min: int, kind: SwitchKind, labels: seq<nat>, switchAddress: nat)
    requires forall j | 0 <= j < |offsets| :: offsets[j] == 0
    ensures Holds(offsets, min, [], kind, labels, switchAddress)
  {
  }

  lemma KeyOf(l: Literal, kind: SwitchKind, min: int, max: int)
    requires KeyWithin(l, kind, min, max)
    ensures var key := match l case Immediate(n) => n - min case Text(s) => s[0] as int - min case _ => 0;
      0 <= key <= max - min && forall j :: KeyIs(l, kind, j) <==> j == min + key
  {
  }

  lemma KeyWithinIs(l: Literal, kind: SwitchKind, min: int, max: int, key: int)
    requires KeyWithin(l, kind, min, max) && KeyIs(l, kind, key)
    ensures min <= key <= max
  {
  }

  /** Where a table sends a value: to the label of the first clause with that key, else to
      the default.  0 marks keys without a clause and never collides with a clause. */
  lemma TableSends(table: SimpleJumpTable, literals: seq<Literal>, kind: SwitchKind, labels: seq<nat>, switchAddress: nat, max: int, value: int, defaultOffset: int)
    requires |labels| == |literals| && table.min <= max && |table.branchOffsets| == max - table.min + 1
    requires forall k | 0 <= k < |literals| :: KeyWithin(literals[k], kind, table.min, max) && labels[k] > switchAddress
    requires Holds(table.branchOffsets, table.min, literals, kind, labels, switchAddress)
    requires IsImmediateInt(value) && IsImmediateInt(table.min)
    ensures var k := FirstKey(literals, kind, value);
      table.OffsetForValue(value, defaultOffset) == if k < |literals| then labels[k] - switchAddress else defaultOffset
  {
    hide FirstKey, KeyIs, UnsignedDifference;
    var k := FirstKey(literals, kind, value);
    if k < |literals| {
      KeyWithinIs(literals[k], kind, table.min, max, value);
    }
    if table.min <= value <= max {
      assert OffsetIs(table.branchOffsets[value - table.min], FirstKey(literals, kind, table.min + (value - table.min)), |literals|, labels, switchAddress);
    }
  }

  // --------------------------------------------------------------- dispatch

  /** Where a switch should go: to the first matching clause, or to the default. */
  function Target(literals: seq<Literal>, labels: seq<nat>, defaultLabel: nat, v: Scrutinee): nat
    requires |labels| == |literals|
  {
    var k := FirstMatch(literals, v);
    if k < |literals| then labels[k] else defaultLabel
  }

  function SwitchImm(table: SimpleJumpTable, v: Scrutinee, defaultOffset: int): int
    reads table
  {
    if v.ImmediateInt? then table.OffsetForValue(v.n, defaultOffset) else defaultOffset
  }

  function SwitchChar(table: SimpleJumpTable, v: Scrutinee, defaultOffset: int): int
    reads table
  {
    if v.JSString? && |v.s| == 1 then table.OffsetForValue(v.s[0] as int, defaultOffset) else defaultOffset
  }

  /** A table made for all the clauses, which lie past the switch. */
  ghost predicate Prepared(table: SimpleJumpTable, literals: seq<Literal>, kind: SwitchKind, labels: seq<nat>, switchAddress: nat, max: int)
    reads table
  {
    && |labels| == |literals| && table.min <= max && |table.branchOffsets| == max - table.min + 1 && IsImmediateInt(table.min)
    && (forall k | 0 <= k < |literals| :: KeyWithin(literals[k], kind, table.min, max) && labels[k] > switchAddress)
    && Holds(table.branchOffsets, table.min, literals, kind, labels, switchAddress)
  }

  /** Exact but for -0, which strictly equals 0 and yet is no immediate number. */
  lemma ImmediateSwitchIff(table: SimpleJumpTable, literals: seq<Literal>, labels: seq<nat>, switchAddress: nat, max: int, defaultLabel: nat, v: Scrutinee)
    requires Prepared(table, literals, Numbers, labels, switchAddress, max)
    ensures var target := switchAddress + SwitchImm(table, v, defaultLabel - switchAddress);
      && (v.NegativeZero? ==> target == defaultLabel)
      && (target == Target(literals, labels, defaultLabel, v) <==>
            !(v.NegativeZero? && Immediate(0) in literals && labels[FirstMatch(literals, v)] != defaultLabel))
  {
    hide Holds, OffsetIs, SimpleJumpTable.OffsetForValue;
    if v.ImmediateInt? {
      FirstMatchIs(literals, v, FirstKey(literals, Numbers, v.n));
      TableSends(table, literals, Numbers, labels, switchAddress, max, v.n, defaultLabel - switchAddress);
    }
    if v.NegativeZero? && Immediate(0) in literals {
      var k :| 0 <= k < |literals| && literals[k] == Immediate(0);
      assert StrictlyEquals(v, literals[k]);
    }
  }

  lemma CharacterSwitch(table: SimpleJumpTable, literals: seq<Literal>, labels: seq<nat>, switchAddress: nat, max: int, defaultLabel: nat, v: Scrutinee)
    requires Prepared(table, literals, Strings, labels, switchAddress, max)
    ensures switchAddress + SwitchChar(table, v, defaultLabel - switchAddress) == Target(literals, labels, defaultLabel, v)
  {
    hide Holds, OffsetIs, SimpleJumpTable.OffsetForValue;
    if v.JSString? && |v.s| == 1 {
      var key := v.s[0] as int;
      forall k | 0 <= k < |literals| ensures StrictlyEquals(v, literals[k]) <==> KeyIs(literals[k], Strings, key) {
        assert KeyWithin(literals[k], Strings, table.min, max);
        assert |literals[k].s| == 1 && (literals[k].s[0] == v.s[0] ==> literals[k].s == v.s);
      }
      FirstMatchIs(literals, v, FirstKey(literals, Strings, key));
      TableSends(table, literals, Strings, labels, switchAddress, max, key, defaultLabel - switchAddress);
    }
  }

  // ------------------------------------------------------------ string tables

  datatype OffsetLocation = OffsetLocation(branchOffset: int, ctiOffset: nat)

  lemma {:induction false} FirstMatchSnoc(literals: seq<Literal>, l: Literal, v: Scrutinee)
    ensures FirstMatch(literals + [l], v) ==
      if FirstMatch(literals, v) < |literals| then FirstMatch(literals, v)
      else if StrictlyEquals(v, l) then |literals| else |literals| + 1
  {
    if literals == [] {
      assert literals + [l] == [l];
    } else {
      FirstMatchSnoc(literals[1..], l, v);
      assert (literals + [l])[1..] == literals[1..] + [l];
    }
  }

  ghost predicate HoldsStrings(table: map<string, OffsetLocation>, literals: seq<Literal>, labels: seq<nat>, switchAddress: nat)
    requires |labels| >= |literals|
  {
    forall s :: HoldsString(table, s, FirstMatch(literals, JSString(s)), |literals|, labels, switchAddress)
  }

  predicate HoldsString(table: map<string, OffsetLocation>, s: string, k: nat, count: nat, labels: seq<nat>, switchAddress: nat)
    requires |labels| >= count
  {
    if k < count then s in table && table[s].branchOffset == labels[k] - switchAddress else s !in table
  }

  /** Adding a clause enters its text unless an earlier clause did. */
  lemma HoldsStringsNext(table: map<string, OffsetLocation>, table': map<string, OffsetLocation>, literals: seq<Literal>, labels: seq<nat>, switchAddress: nat, clause: string)
    requires |labels| > |literals| && HoldsStrings(table, literals, labels, switchAddress)
    requires table' == if clause in table then table else table[clause := OffsetLocation(labels[|literals|] - switchAddress, 0)]
    ensures HoldsStrings(table', literals + [Text(clause)], labels, switchAddress)
  {
    hide FirstMatch;
    forall s ensures HoldsString(table', s, FirstMatch(literals + [Text(clause)], JSString(s)), |literals| + 1, labels, switchAddress) {
      FirstMatchSnoc(literals, Text(clause), JSString(s));
      assert HoldsString(table, s, FirstMatch(literals, JSString(s)), |literals|, labels, switchAddress);
    }
  }

  lemma NoStringsHeld(labels: seq<nat>, switchAddress: nat)
    ensures HoldsStrings(map[], [], labels, switchAddress)
  {
  }

  class StringJumpTable {
    var offsetTable: map<string, OffsetLocation>
    var ctiDefault: nat

    constructor ()
      ensures offsetTable == map[]
    {
      offsetTable, ctiDefault := map[], 0;
    }

    function OffsetForValue(value: string, defaultOffset: int): int
      reads this
    {
      if value in offsetTable then offsetTable[value].branchOffset else defaultOffset
    }

    function CtiForValue(value: string): nat
      reads this
    {
      if value in offsetTable then offsetTable[value].ctiOffset else ctiDefault
    }

    /** An entry that is already there stays. */
    method Prepare(switchAddress: nat, labels: seq<nat>, literals: seq<Literal>)
      requires offsetTable == map[] && |labels| == |literals| && forall k | 0 <= k < |literals| :: literals[k].Text?
      modifies this`offsetTable
      ensures HoldsStrings(offsetTable, literals, labels, switchAddress)
    {
      hide HoldsString, FirstMatch;
      NoStringsHeld(labels, switchAddress);
      for i := 0 to |literals|
        invariant HoldsStrings(offsetTable, literals[..i], labels, switchAddress)
      {
        var clause := literals[i].s;
        ghost var before := offsetTable;
        if clause !in offsetTable {
          offsetTable := offsetTable[clause := OffsetLocation(labels[i] - switchAddress, 0)];
        }
        assert literals[..i + 1] == literals[..i] + [literals[i]];
        HoldsStringsNext(before, offsetTable, literals[..i], labels, switchAddress, clause);
      }
      assert literals[..|literals|] == literals;
    }

    /** Fills in the machine address of each clause. */
    method Translate(opcodeIndex: nat, defaultOffset: int, addresses: seq<nat>)
      requires 0 <= opcodeIndex + 3 + defaultOffset < |addresses|
      requires forall s | s in offsetTable :: offsetTable[s].branchOffset != 0 && 0 <= opcodeIndex + 3 + offsetTable[s].branchOffset < |addresses|
      modifies this
      ensures forall s, d :: OffsetForValue(s, d) == old(OffsetForValue(s, d))
      ensures forall s ::
        0 <= opcodeIndex + 3 + OffsetForValue(s, defaultOffset) < |addresses| &&
        CtiForValue(s) == addresses[opcodeIndex + 3 + OffsetForValue(s, defaultOffset)]
    {
      ctiDefault := addresses[opcodeIndex + 3 + defaultOffset];
      var keys := offsetTable.Keys;
      while keys != {}
        invariant keys <= offsetTable.Keys == old(offsetTable.Keys) && ctiDefault == addresses[opcodeIndex + 3 + defaultOffset]
        invariant forall s | s in offsetTable :: offsetTable[s].branchOffset == old(offsetTable)[s].branchOffset
        invariant forall s | s in offsetTable && s !in keys :: offsetTable[s].ctiOffset == addresses[opcodeIndex + 3 + offsetTable[s].branchOffset]
        decreases |keys|
      {
        var s :| s in keys;
        var offset := offsetTable[s].branchOffset;
        offsetTable := offsetTable[s := OffsetLocation(offset, if offset != 0 then addresses[opcodeIndex + 3 + offset] else ctiDefault)];
        keys := keys - {s};
      }
    }
  }

  function SwitchStringOffset(table: StringJumpTable, v: Scrutinee, defaultOffset: int): int
    reads table
  {
    if v.JSString? then table.OffsetForValue(v.s, defaultOffset) else defaultOffset
  }

  lemma StringSwitch(table: StringJumpTable, literals: seq<Literal>, labels: seq<nat>, switchAddress: nat, defaultLabel: nat, v: Scrutinee)
    requires |labels| == |literals| && (forall k | 0 <= k < |literals| :: literals[k].Text?)
    requires HoldsStrings(table.offsetTable, literals, labels, switchAddress)
    ensures switchAddress + SwitchStringOffset(table, v, defaultLabel - switchAddress) == Target(literals, labels, defaultLabel, v)
  {
    if !v.JSString? {
      FirstMatchIs(literals, v, |literals|);
    } else {
      assert HoldsString(table.offsetTable, v.s, FirstMatch(literals, JSString(v.s)), |literals|, labels, switchAddress);
    }
  }

  // ----------------------------------------------------------- native tables

  /** Fills in the machine addresses of a simple table; they then send every value to the
      code of the clause that the offsets select. */
  method TranslateSwitch(table: SimpleJumpTable, opcodeIndex: nat, defaultOffset: int, addresses: seq<nat>)
    requires 0 <= opcodeIndex + 3 + defaultOffset < |addresses|
    requires forall j | 0 <= j < |table.branchOffsets| :: 0 <= opcodeIndex + 3 + table.branchOffsets[j] < |addresses|
    modifies table`ctiOffsets, table`ctiDefault
    ensures forall value ::
      0 <= opcodeIndex + 3 + table.OffsetForValue(value, defaultOffset) < |addresses| &&
      table.CtiForValue(value) == addresses[opcodeIndex + 3 + table.OffsetForValue(value, defaultOffset)]
  {
    table.ctiOffsets := seq(|table.branchOffsets|, _ => 0);
    table.ctiDefault := addresses[opcodeIndex + 3 + defaultOffset];
    for j := 0 to |table.branchOffsets|
      invariant |table.ctiOffsets| == |table.branchOffsets| && table.ctiDefault == addresses[opcodeIndex + 3 + defaultOffset]
      invariant forall i | 0 <= i < j ::
        table.ctiOffsets[i] == (if table.branchOffsets[i] != 0 then addresses[opcodeIndex + 3 + table.branchOffsets[i]] else table.ctiDefault)
    {
      var offset := table.branchOffsets[j];
      table.ctiOffsets := table.ctiOffsets[j := if offset != 0 then addresses[opcodeIndex + 3 + offset] else table.ctiDefault];
    }
  }
}
