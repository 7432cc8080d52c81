/** Register identities and the stack-like allocation of temporaries.

    A register is available again as soon as nothing references it; allocation first
    reclaims the unreferenced registers at the end of the callee registers. */
module Registers {

  class RegisterID {
    var refCount: int
    var index: int
    var isTemporary: bool

    constructor (index: int)
      ensures refCount == 0 && this.index == index && !isTemporary
    {
      refCount := 0;
      this.index := index;
      isTemporary := false;
    }

    method SetTemporary()
      modifies this`isTemporary
      ensures isTemporary
    {
      isTemporary := true;
    }

    method Ref()
      modifies this`refCount
      ensures refCount == old(refCount) + 1
    {
      refCount := refCount + 1;
    }

    method Deref()
      requires refCount > 0
      modifies this`refCount
      ensures refCount == old(refCount) - 1
    {
      refCount := refCount - 1;
    }
  }

  // ------------------------------------------------------ reference counts

  /** The registers that survive reclamation: up to the last referenced one. */
  function Kept(counts: seq<nat>): (n: nat)
    ensures n <= |counts|
    ensures n > 0 ==> counts[n - 1] > 0
    ensures forall k | n <= k < |counts| :: counts[k] == 0
  {
    if counts == [] then 0
    else if counts[|counts| - 1] > 0 then |counts|
    else Kept(counts[..|counts| - 1])
  }

  lemma KeptIs(counts: seq<nat>, n: nat)
    requires n <= |counts| && (n > 0 ==> counts[n - 1] > 0)
    requires forall k | n <= k < |counts| :: counts[k] == 0
    ensures Kept(counts) == n
  {
  }

  /** What can happen to the registers: a temporary handed out (to a RefPtr or not),
      a reference taken, a reference dropped. */
  datatype Action = NewReferenced | NewUnreferenced | Ref(index: nat) | Deref(index: nat)

  predicate Possible(counts: seq<nat>, a: Action) {
    match a
    case NewReferenced => true
    case NewUnreferenced => true
    case Ref(k) => k < |counts|
    case Deref(k) => k < |counts| && counts[k] > 0
  }

  function Apply(counts: seq<nat>, a: Action): seq<nat>
    requires Possible(counts, a)
  {
    match a
    case NewReferenced => counts[..Kept(counts)] + [1]
    case NewUnreferenced => counts[..Kept(counts)] + [0]
    case Ref(k) => counts[k := counts[k] + 1]
    case Deref(k) => counts[k := counts[k] - 1]
  }

  predicate AllPossible(counts: seq<nat>, actions: seq<Action>)
    decreases |actions|
  {
    actions == [] || (Possible(counts, actions[0]) && AllPossible(Apply(counts, actions[0]), actions[1..]))
  }

  function ApplyAll(counts: seq<nat>, actions: seq<Action>): seq<nat>
    requires AllPossible(counts, actions)
    decreases |actions|
  {
    if actions == [] then counts else ApplyAll(Apply(counts, actions[0]), actions[1..])
  }

  /** The last constant is held by the generator, so its count never drops to zero. */
  predicate HoldsReserved(counts: seq<nat>, reserved: nat, actions: seq<Action>)
    requires AllPossible(counts, actions)
    decreases |actions|
  {
    (reserved > 0 ==> reserved <= |counts| && counts[reserved - 1] > 0) &&
    (actions == [] || HoldsReserved(Apply(counts, actions[0]), reserved, actions[1..]))
  }

  /** Over every history, what is handed out is neither referenced nor one of the
      `reserved` locals and constants. */
  predicate HandsOutSafely(counts: seq<nat>, reserved: nat, actions: seq<Action>)
    requires AllPossible(counts, actions)
    decreases |actions|
  {
    actions == [] ||
    (((actions[0].NewReferenced? || actions[0].NewUnreferenced?) ==>
        Kept(counts) >= reserved && (Kept(counts) < |counts| ==> counts[Kept(counts)] == 0))
     && HandsOutSafely(Apply(counts, actions[0]), reserved, actions[1..]))
  }

  lemma {:induction false} TemporariesAreSafe(counts: seq<nat>, reserved: nat, actions: seq<Action>)
    requires AllPossible(counts, actions) && HoldsReserved(counts, reserved, actions)
    ensures HandsOutSafely(counts, reserved, actions)
    decreases |actions|
  {
    if actions != [] {
      TemporariesAreSafe(Apply(counts, actions[0]), reserved, actions[1..]);
    }
  }

  /** A single allocation spares the first `reserved` registers exactly when the last of
      them, or some register after it, is referenced. */
  lemma SparesReservedIff(counts: seq<nat>, reserved: nat)
    requires reserved <= |counts|
    ensures Kept(counts) >= reserved <==>
      (reserved == 0 || exists k :: reserved - 1 <= k < |counts| && counts[k] > 0)
  {
    var n := Kept(counts);
    if n >= reserved && reserved > 0 {
      assert counts[n - 1] > 0;
    }
  }

  /** Without constants nothing holds the locals: the first temporary takes the place of
      the first local. */
  lemma LocalsNeedAConstant(locals: nat)
    ensures var counts := seq(locals, _ => 0);
      Kept(counts) == 0 && Apply(counts, NewReferenced) == [1]
  {
    KeptIs(seq(locals, _ => 0), 0);
  }

  // -------------------------------------------------------------- allocator

  datatype Symbol = Symbol(index: nat, isReadOnly: bool)

  class RegisterAllocator {
    var symbolTable: map<string, Symbol>
    var calleeRegisters: seq<RegisterID>
    var numCalleeRegisters: nat
    var numVars: nat
    var nextConstant: nat
    var numConstants: nat
    var lastConstant: RegisterID?

    ghost predicate Valid()
      reads this, calleeRegisters
    {
      && (forall i | 0 <= i < |calleeRegisters| :: calleeRegisters[i].index == i && calleeRegisters[i].refCount >= 0)
      && |calleeRegisters| <= numCalleeRegisters
      && (forall name | name in symbolTable :: symbolTable[name].index < numVars)
      && (numConstants > 0 ==>
            && numVars + numConstants <= |calleeRegisters|
            && lastConstant == calleeRegisters[numVars + numConstants - 1]
            && lastConstant.refCount > 0)
    }

    ghost function Counts(): (counts: seq<nat>)
      requires Valid()
      reads this, calleeRegisters
      ensures |counts| == |calleeRegisters| && forall i :: 0 <= i < |counts| ==> counts[i] == calleeRegisters[i].refCount
    {
      seq(|calleeRegisters|, i requires 0 <= i < |calleeRegisters| && calleeRegisters[i].refCount >= 0 reads this, calleeRegisters
        => calleeRegisters[i].refCount)
    }

    constructor ()
      ensures Valid() && calleeRegisters == [] && symbolTable == map[] && numVars == 0 && numConstants == 0
    {
      symbolTable := map[];
      calleeRegisters := [];
      numCalleeRegisters, numVars, nextConstant, numConstants := 0, 0, 0, 0;
      lastConstant := null;
    }

    method NewRegister() returns (r: RegisterID)
      requires Valid()
      modifies this`calleeRegisters, this`numCalleeRegisters
      ensures Valid() && fresh(r) && r.refCount == 0 && !r.isTemporary
      ensures calleeRegisters == old(calleeRegisters) + [r] && r.index == |old(calleeRegisters)|
      ensures Counts() == old(Counts()) + [0]
      ensures numCalleeRegisters >= old(numCalleeRegisters)
      ensures numCalleeRegisters <= if old(numCalleeRegisters) > |calleeRegisters| then old(numCalleeRegisters) else |calleeRegisters|
    {
      r := new RegisterID(|calleeRegisters|);
      calleeRegisters := calleeRegisters + [r];
      numCalleeRegisters := if numCalleeRegisters < |calleeRegisters| then |calleeRegisters| else numCalleeRegisters;
    }

    /** One register per name, before any constant or temporary exists; a name declared
        again keeps its register and its attributes. */
    method AddVar(name: string, isConstant: bool) returns (added: bool, r: RegisterID)
      requires Valid() && |calleeRegisters| == numVars && numConstants == 0
      modifies this`symbolTable, this`calleeRegisters, this`numCalleeRegisters, this`numVars
      ensures Valid() && |calleeRegisters| == numVars && (added <==> name !in old(symbolTable))
      ensures !added ==> symbolTable == old(symbolTable) && calleeRegisters == old(calleeRegisters)
      ensures added ==>
        && calleeRegisters == old(calleeRegisters) + [r]
        && symbolTable == old(symbolTable)[name := Symbol(|old(calleeRegisters)|, isConstant)]
      ensures name in symbolTable && symbolTable[name].index == r.index && r == calleeRegisters[r.index]
    {
      var entry := Symbol(|calleeRegisters|, isConstant);
      if name in symbolTable {
        return false, calleeRegisters[symbolTable[name].index];
      }
      numVars := numVars + 1;
      symbolTable := symbolTable[name := entry];
      r := NewRegister();
      added := true;
    }

    method AllocateConstants(count: nat)
      requires Valid() && |calleeRegisters| == numVars && numConstants == 0
      modifies this
      ensures Valid() && numConstants == count && numVars == old(numVars) && symbolTable == old(symbolTable)
      ensures |calleeRegisters| == numVars + count && old(calleeRegisters) <= calleeRegisters
      ensures count > 0 ==> nextConstant == numVars
    {
      if count == 0 {
        return;
      }
      nextConstant := |calleeRegisters|;
      for i := 0 to count
        invariant Valid() && numConstants == 0 && numVars == old(numVars) && nextConstant == numVars && symbolTable == old(symbolTable)
        invariant |calleeRegisters| == numVars + i && old(calleeRegisters) <= calleeRegisters
        invariant forall k | numVars <= k < |calleeRegisters| :: fresh(calleeRegisters[k])
      {
        var _ := NewRegister();
      }
      numConstants := count;
      lastConstant := calleeRegisters[|calleeRegisters| - 1];
      lastConstant.Ref();
    }

    lemma ReservedHeld()
      requires Valid() && numConstants > 0
      ensures numVars + numConstants <= |calleeRegisters|
    {
    }

    /** Drops an unreferenced register at the end. */
    method DropLast()
      requires Valid() && numConstants > 0
      requires |calleeRegisters| > 0 && calleeRegisters[|calleeRegisters| - 1].refCount == 0
      modifies this`calleeRegisters
      ensures Valid() && calleeRegisters == old(calleeRegisters)[..|old(calleeRegisters)| - 1]
      ensures Counts() == old(Counts())[..|calleeRegisters|] && old(Counts())[|calleeRegisters|] == 0
    {
      calleeRegisters := calleeRegisters[..|calleeRegisters| - 1];
    }

    /** Reclaims the unreferenced registers at the end. */
    method Reclaim()
      requires Valid()
      requires numConstants > 0
      modifies this`calleeRegisters
      ensures Valid() && numVars + numConstants <= |calleeRegisters| == Kept(old(Counts()))
      ensures calleeRegisters == old(calleeRegisters)[..|calleeRegisters|]
      ensures Counts() == old(Counts())[..|calleeRegisters|]
    {
      hide Kept, RegisterAllocator.Valid, RegisterAllocator.Counts;
      ghost var all, counts := calleeRegisters, Counts();
      while |calleeRegisters| > 0 && calleeRegisters[|calleeRegisters| - 1].refCount == 0
        invariant Valid()
        invariant |calleeRegisters| <= |all| && calleeRegisters == all[..|calleeRegisters|]
        invariant Counts() == counts[..|calleeRegisters|]
        invariant forall k | |calleeRegisters| <= k < |all| :: counts[k] == 0
        decreases |calleeRegisters|
      {
        ghost var n := |calleeRegisters|;
        DropLast();
        assert counts[..n][..n - 1] == counts[..n - 1] && counts[..n][n - 1] == counts[n - 1];
      }
      ReservedHeld();
      KeptIs(counts, |calleeRegisters|);
    }

    method AddTemporary() returns (r: RegisterID)
      requires Valid()
      modifies this`calleeRegisters, this`numCalleeRegisters
      ensures Valid() && fresh(r) && r.isTemporary && r.refCount == 0 && r.index == |old(calleeRegisters)| < numCalleeRegisters
      ensures calleeRegisters == old(calleeRegisters) + [r] && Counts() == old(Counts()) + [0]
      ensures old(numCalleeRegisters) <= numCalleeRegisters
    {
      r := NewRegister();
      r.SetTemporary();
    }

    method NewTemporary() returns (r: RegisterID)
      requires Valid()
      requires numConstants > 0
      modifies this`calleeRegisters, this`numCalleeRegisters
      ensures Valid() && fresh(r) && r.isTemporary && r.refCount == 0
      ensures r.index == Kept(old(Counts())) >= numVars + numConstants
      ensures calleeRegisters == old(calleeRegisters)[..r.index] + [r]
      ensures Counts() == Apply(old(Counts()), NewUnreferenced)
      ensures r.index < numCalleeRegisters && old(numCalleeRegisters) <= numCalleeRegisters
    {
      hide Kept, RegisterAllocator.Valid, RegisterAllocator.Counts;
      Reclaim();
      r := AddTemporary();
    }

    /** References a register. */
    method RefAt(k: nat, r: RegisterID)
      requires Valid() && k < |calleeRegisters| && calleeRegisters[k] == r
      modifies r`refCount
      ensures Valid() && Counts() == old(Counts())[k := old(Counts())[k] + 1]
    {
      r.Ref();
    }

    /** Dereferences a register, the last constant at most down to its own reference. */
    method DerefAt(k: nat, r: RegisterID)
      requires Valid() && k < |calleeRegisters| && calleeRegisters[k] == r && Counts()[k] > 0
      requires numConstants > 0 && k == numVars + numConstants - 1 ==> Counts()[k] > 1
      modifies r`refCount
      ensures Valid() && Counts() == old(Counts())[k := old(Counts())[k] - 1]
    {
      r.Deref();
    }

    /** `RefPtr<RegisterID> r = newTemporary()` */
    method HoldTemporary() returns (r: RegisterID)
      requires Valid()
      requires numConstants > 0
      modifies this`calleeRegisters, this`numCalleeRegisters
      ensures Valid() && fresh(r) && r.isTemporary
      ensures r.index == Kept(old(Counts())) >= numVars + numConstants
      ensures calleeRegisters == old(calleeRegisters)[..r.index] + [r]
      ensures Counts() == Apply(old(Counts()), NewReferenced)
      ensures r.index < numCalleeRegisters && old(numCalleeRegisters) <= numCalleeRegisters
    {
      hide Kept, RegisterAllocator.Valid, RegisterAllocator.Counts;
      r := NewTemporary();
      RefAt(r.index, r);
    }

    method Perform(a: Action)
      requires Valid() && numConstants > 0
      requires Possible(Counts(), a)
      requires a.Deref? && a.index == numVars + numConstants - 1 ==> Counts()[a.index] > 1
      modifies this`calleeRegisters, this`numCalleeRegisters, calleeRegisters`refCount
      ensures Valid() && Counts() == Apply(old(Counts()), a)
      ensures old(numCalleeRegisters) <= numCalleeRegisters
      ensures forall r | r in calleeRegisters :: r in old(calleeRegisters) || fresh(r)
    {
      hide Kept, RegisterAllocator.Valid, RegisterAllocator.Counts;
      match a
      case NewReferenced => var _ := HoldTemporary();
      case NewUnreferenced => var _ := NewTemporary();
      case Ref(k) => RefAt(k, calleeRegisters[k]);
      case Deref(k) => DerefAt(k, calleeRegisters[k]);
    }

    /** Every register ever handed out is kept alive up to the highest index. */
    method HighestUsedRegister() returns (r: RegisterID)
      requires Valid() && |calleeRegisters| > 0
      modifies this`calleeRegisters, this`numCalleeRegisters
      ensures Valid() && |calleeRegisters| == numCalleeRegisters == old(numCalleeRegisters)
      ensures r == calleeRegisters[|calleeRegisters| - 1] && r.index == numCalleeRegisters - 1
      ensures old(calleeRegisters) <= calleeRegisters
    {
      var count := numCalleeRegisters;
      while |calleeRegisters| < count
        invariant Valid() && |calleeRegisters| <= count == numCalleeRegisters
        invariant old(calleeRegisters) <= calleeRegisters
      {
        var _ := NewRegister();
      }
      r := calleeRegisters[|calleeRegisters| - 1];
    }
  }
}
