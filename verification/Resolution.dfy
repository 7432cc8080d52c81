/** Resolving identifiers at compile time.

    A function is compiled against the scope chain of its first instance; the instruction
    chosen must find the same binding as a search from the innermost scope, on the chain
    of every instance and whatever scopes that can still grow have gained by then. */
module Resolution {
  import opened Bytecode

  type Identifier = string

  const ARGUMENTS := "arguments"

  datatype SymbolTableEntry = SymbolTableEntry(index: int, isReadOnly: bool)

  /** Where an object keeps a property. */
  datatype Slot = Slot(holder: nat, offset: nat)

  /** `isDynamic`: further variables can be declared in it.  `properties` are those kept
      outside the symbol table, on the object itself or on its prototypes. */
  datatype Scope = Scope(id: nat, isVariableObject: bool, isActivation: bool, isDynamic: bool,
                         symbolTable: map<Identifier, SymbolTableEntry>, properties: map<Identifier, Slot>)

  /** Only variable objects have symbol tables; only those that are dynamic, and plain
      objects, have other properties. */
  predicate ScopeValid(s: Scope) {
    && (!s.isVariableObject ==> s.symbolTable == map[] && !s.isActivation)
    && (s.isVariableObject && !s.isDynamic ==> s.properties == map[])
  }

  /** A chain of scopes, the innermost first, ends in the global object, which is dynamic. */
  predicate ChainValid(chain: seq<Scope>) {
    && chain != [] && (forall d | 0 <= d < |chain| :: ScopeValid(chain[d]))
    && chain[|chain| - 1].isVariableObject && chain[|chain| - 1].isDynamic && !chain[|chain| - 1].isActivation
  }

  /** Another instance of the same function, or the same one later. */
  predicate SameShape(a: seq<Scope>, b: seq<Scope>) {
    && |a| == |b| && a != []
    && a[|a| - 1].id == b[|a| - 1].id
    && forall d | 0 <= d < |a| :: SameScopeShape(a[d], b[d])
  }

  /** A dynamic scope may have gained symbols, as the global object does with each program;
      none is ever lost.  Properties outside the symbol table come and go. */
  predicate SameScopeShape(a: Scope, b: Scope) {
    && a.isVariableObject == b.isVariableObject && a.isActivation == b.isActivation && a.isDynamic == b.isDynamic
    && (!a.isDynamic ==> a.symbolTable == b.symbolTable)
    && (forall name | name in a.symbolTable :: name in b.symbolTable && b.symbolTable[name] == a.symbolTable[name])
  }

  // ----------------------------------------------------------- plain search

  datatype Binding = InRegister(scope: nat, index: int) | ArgumentsOf(scope: nat) | AsProperty(scope: nat, slot: Slot) | Unresolvable

  /** An activation answers for `arguments` even if it holds no such variable. */
  predicate Has(s: Scope, name: Identifier) {
    name in s.symbolTable || name in s.properties || (s.isActivation && name == ARGUMENTS)
  }

  function BindingIn(s: Scope, name: Identifier): Binding
    requires Has(s, name)
  {
    if name in s.symbolTable then InRegister(s.id, s.symbolTable[name].index)
    else if name in s.properties then AsProperty(s.id, s.properties[name])
    else ArgumentsOf(s.id)
  }

  function Search(chain: seq<Scope>, name: Identifier): Binding {
    if chain == [] then Unresolvable
    else if Has(chain[0], name) then BindingIn(chain[0], name)
    else Search(chain[1..], name)
  }

  lemma {:induction false} SearchSkips(chain: seq<Scope>, name: Identifier, d: nat)
    requires d <= |chain| && forall k | 0 <= k < d :: !Has(chain[k], name)
    ensures Search(chain, name) == Search(chain[d..], name)
    decreases d
  {
    if d > 0 {
      SearchSkips(chain[1..], name, d - 1);
      assert chain[1..][d - 1..] == chain[d..];
    } else {
      assert chain[0..] == chain;
    }
  }

  // ----------------------------------------------------------- instructions

  datatype Resolve =
    | OpResolve
    | OpResolveSkip(skip: nat)
    | OpResolveGlobal(globalObject: nat)
    | OpGetScopedVar(index: int, skip: nat)
    | OpGetGlobalVar(globalObject: nat, index: int)

  /** What an instruction finds, the chain being the scopes of the function's instance,
      preceded by the activation if there is one.  `hit` is the slot that a `resolve_global`
      remembers, if the global object still has the structure remembered with it. */
  function Execute(i: Resolve, chain: seq<Scope>, hasActivation: bool, name: Identifier, hit: Option<Slot>): Binding
    requires ChainValid(chain)
  {
    var extra := if hasActivation then 1 else 0;
    match i
    case OpResolve => Search(chain, name)
    case OpResolveSkip(skip) => if skip + extra < |chain| then Search(chain[skip + extra..], name) else Unresolvable
    case OpResolveGlobal(g) =>
      if hit.Some? then AsProperty(g, hit.value)
      else if chain[|chain| - 1].id == g then Search([chain[|chain| - 1]], name) else Unresolvable
    case OpGetScopedVar(index, skip) => if skip + extra < |chain| then InRegister(chain[skip + extra].id, index) else Unresolvable
    case OpGetGlobalVar(g, index) => InRegister(g, index)
  }

  datatype Store =
    | OpPutScopedVar(index: int, skip: nat)
    | OpPutGlobalVar(globalObject: nat, index: int)

  /** The registers of variable objects. */
  datatype Place = Place(scope: nat, index: int)
  type Memory = map<Place, Value>

  function ExecuteStore(i: Store, chain: seq<Scope>, hasActivation: bool, memory: Memory, value: Value): Memory {
    var extra := if hasActivation then 1 else 0;
    match i
    case OpPutScopedVar(index, skip) => if skip + extra < |chain| then memory[Place(chain[skip + extra].id, index) := value] else memory
    case OpPutGlobalVar(g, index) => memory[Place(g, index) := value]
  }

  /** What a search from the innermost scope finds may be assigned to. */
  predicate Assignable(chain: seq<Scope>, name: Identifier) {
    chain != [] &&
    if Has(chain[0], name) then name in chain[0].symbolTable && !chain[0].symbolTable[name].isReadOnly
    else Assignable(chain[1..], name)
  }

  lemma {:induction false} AssignableSkips(chain: seq<Scope>, name: Identifier, d: nat)
    requires d <= |chain| && forall k | 0 <= k < d :: !Has(chain[k], name)
    ensures Assignable(chain, name) == Assignable(chain[d..], name)
    decreases d
  {
    if d > 0 {
      AssignableSkips(chain[1..], name, d - 1);
      assert chain[1..][d - 1..] == chain[d..];
    } else {
      assert chain[0..] == chain;
    }
  }

  // -------------------------------------------------------------- generator

  datatype CodeType = GlobalCode | EvalCode | FunctionCode

  datatype Code = Code(codeType: CodeType, usesEval: bool, needsFullScopeChain: bool, dynamicScopeDepth: nat)

  predicate ShouldOptimizeLocals(code: Code) { !code.codeType.EvalCode? && code.dynamicScopeDepth == 0 }

  predicate CanOptimizeNonLocals(code: Code) { code.codeType.FunctionCode? && code.dynamicScopeDepth == 0 && !code.usesEval }

  /** The scopes in front of the chain the code was compiled against when the instruction is
      executed: those pushed by `with` and `catch` inside it and, behind them, the activation
      of a function that has one.  An `eval` can declare any name in the activation; without
      it only the variables are there that were resolved to registers before. */
  predicate Front(code: Code, front: seq<Scope>, name: Identifier) {
    && (forall d | 0 <= d < |front| :: ScopeValid(front[d]))
    && (code.codeType.GlobalCode? ==> |front| == code.dynamicScopeDepth)
    && (code.codeType.FunctionCode? ==>
          && |front| == code.dynamicScopeDepth + (if code.needsFullScopeChain then 1 else 0)
          && (code.needsFullScopeChain ==>
                var activation := front[code.dynamicScopeDepth];
                activation.isActivation && (!code.usesEval ==> name !in activation.symbolTable && name !in activation.properties)))
  }

  /** The slot remembered is where the global object has the property. */
  predicate HitRight(hit: Option<Slot>, later: seq<Scope>, name: Identifier)
    requires ChainValid(later)
  {
    var global := later[|later| - 1];
    hit.Some? ==> name !in global.symbolTable && name in global.properties && global.properties[name] == hit.value
  }

  /** On every instance, and whatever has been added to its scopes, the instruction finds
      what a search from the innermost scope finds, exactly unless it is a `resolve_global`
      that remembers a wrong slot. */
  ghost predicate ResolvesAsSearch(i: Resolve, code: Code, chain: seq<Scope>, name: Identifier) {
    forall later, front, hit | ChainValid(later) && SameShape(chain, later) && Front(code, front, name) ::
      SameBinding(i, code, front, later, name, hit) <==> (i.OpResolveGlobal? ==> HitRight(hit, later, name))
  }

  predicate SameBinding(i: Resolve, code: Code, front: seq<Scope>, later: seq<Scope>, name: Identifier, hit: Option<Slot>)
    requires ChainValid(later) && (forall d | 0 <= d < |front| :: ScopeValid(front[d]))
  {
    ChainValid(front + later) &&
    Execute(i, front + later, code.needsFullScopeChain, name, hit) == Search(front + later, name)
  }

  /** The scopes passed over can never come to have the name. */
  predicate Settled(s: Scope, name: Identifier) {
    s.isVariableObject && !s.isDynamic && name !in s.symbolTable
  }

  lemma FrontValid(code: Code, front: seq<Scope>, later: seq<Scope>, name: Identifier)
    requires ChainValid(later) && Front(code, front, name)
    ensures ChainValid(front + later) && (forall d | 0 <= d < |front| :: ScopeValid(front[d]))
  {
  }

  /** What is skipped has no such binding, in any later chain. */
  lemma PassedOver(code: Code, front: seq<Scope>, chain: seq<Scope>, later: seq<Scope>, name: Identifier, depth: nat)
    requires CanOptimizeNonLocals(code) && name != ARGUMENTS
    requires ChainValid(later) && SameShape(chain, later) && Front(code, front, name)
    requires depth < |chain| && forall d | 0 <= d < depth :: Settled(chain[d], name)
    ensures |front| == if code.needsFullScopeChain then 1 else 0
    ensures (front + later)[depth + |front|..] == later[depth..]
    ensures Search(front + later, name) == Search(later[depth..], name)
    ensures Assignable(front + later, name) == Assignable(later[depth..], name)
  {
    hide Has, Settled, ScopeValid, SameScopeShape, Search, Assignable;
    forall k | 0 <= k < depth + |front| ensures !Has((front + later)[k], name) {
      if k >= |front| {
        assert Settled(chain[k - |front|], name) && SameScopeShape(chain[k - |front|], later[k - |front|]) && ScopeValid(later[k - |front|]);
        StaysSettled(chain[k - |front|], later[k - |front|], name);
      } else {
        ActivationLacks(code, front, name);
      }
    }
    SearchSkips(front + later, name, depth + |front|);
    AssignableSkips(front + later, name, depth + |front|);
  }

  lemma StaysSettled(a: Scope, b: Scope, name: Identifier)
    requires Settled(a, name) && SameScopeShape(a, b) && ScopeValid(b) && name != ARGUMENTS
    ensures !Has(b, name)
  {
  }

  lemma ActivationLacks(code: Code, front: seq<Scope>, name: Identifier)
    requires CanOptimizeNonLocals(code) && Front(code, front, name) && name != ARGUMENTS
    ensures forall k | 0 <= k < |front| :: !Has(front[k], name)
  {
  }

  /** A search of the global object alone finds the slot remembered exactly if it is right. */
  lemma GlobalFound(later: seq<Scope>, name: Identifier, hit: Option<Slot>)
    requires ChainValid(later)
    ensures hit.None? ==> HitRight(hit, later, name)
    ensures hit.Some? ==> var global := later[|later| - 1];
      Search([global], name) == AsProperty(global.id, hit.value) <==> HitRight(hit, later, name)
  {
    assert Search([later[|later| - 1]][1..], name) == Unresolvable;
  }

  lemma FoundFirst(chain: seq<Scope>, name: Identifier)
    requires chain != [] && name in chain[0].symbolTable
    ensures Search(chain, name) == InRegister(chain[0].id, chain[0].symbolTable[name].index)
  {
  }

  /** The instruction chosen where the static search stops. */
  lemma StoppedAt(i: Resolve, code: Code, front: seq<Scope>, chain: seq<Scope>, later: seq<Scope>, name: Identifier, depth: nat, hit: Option<Slot>)
    requires CanOptimizeNonLocals(code) && name != ARGUMENTS
    requires ChainValid(chain) && ChainValid(later) && SameShape(chain, later) && Front(code, front, name)
    requires depth < |chain| && forall d | 0 <= d < depth :: Settled(chain[d], name)
    requires var last, here := depth == |chain| - 1, chain[depth];
      i == if name in here.symbolTable
           then if last then OpGetGlobalVar(here.id, here.symbolTable[name].index) else OpGetScopedVar(here.symbolTable[name].index, depth)
           else if last then OpResolveGlobal(here.id) else OpResolveSkip(depth)
    ensures SameBinding(i, code, front, later, name, hit) <==> (i.OpResolveGlobal? ==> HitRight(hit, later, name))
  {
    hide Settled, Front, HitRight, ScopeValid, Search, BindingIn, Has;
    FrontValid(code, front, later, name);
    PassedOver(code, front, chain, later, name, depth);
    var all := front + later;
    assert all[|all| - 1] == later[|later| - 1] && all[depth + |front|] == later[depth];
    assert SameScopeShape(chain[depth], later[depth]);
    if name in chain[depth].symbolTable { FoundFirst(later[depth..], name); }
    assert depth == |later| - 1 ==> later[depth..] == [later[depth]];
    GlobalFound(later, name, hit);
  }

  /** Where nothing is known the whole chain is searched; code of the global scope has only
      the global object. */
  lemma NotOptimized(i: Resolve, code: Code, front: seq<Scope>, chain: seq<Scope>, later: seq<Scope>, name: Identifier, hit: Option<Slot>)
    requires ChainValid(chain) && ChainValid(later) && SameShape(chain, later) && Front(code, front, name)
    requires || i.OpResolve?
             || (code.codeType.GlobalCode? && code.dynamicScopeDepth == 0 && |chain| == 1 && i == OpResolveGlobal(chain[0].id))
    ensures SameBinding(i, code, front, later, name, hit) <==> (i.OpResolveGlobal? ==> HitRight(hit, later, name))
  {
    hide Search, Has, BindingIn, HitRight, ScopeValid;
    FrontValid(code, front, later, name);
    if i.OpResolveGlobal? {
      assert front + later == later == [later[0]];
      GlobalFound(later, name, hit);
    }
  }

  /** On every instance, and whatever has been added to its scopes: the variable that a search
      from the innermost scope finds may be assigned to, the load finds it, and the store
      gives it the value and changes no other. */
  ghost predicate AssignsAsSearch(get: Resolve, put: Store, code: Code, chain: seq<Scope>, name: Identifier) {
    forall later, front, memory, value | ChainValid(later) && SameShape(chain, later) && Front(code, front, name) ::
      Assigns(get, put, code, front, later, name, memory, value)
  }

  predicate Assigns(get: Resolve, put: Store, code: Code, front: seq<Scope>, later: seq<Scope>, name: Identifier, memory: Memory, value: Value) {
    var all := front + later;
    && ChainValid(all) && Assignable(all, name) && Search(all, name).InRegister?
    && Execute(get, all, code.needsFullScopeChain, name, None) == Search(all, name)
    && ExecuteStore(put, all, code.needsFullScopeChain, memory, value) == memory[Place(Search(all, name).scope, Search(all, name).index) := value]
  }

  lemma AssignableFirst(chain: seq<Scope>, name: Identifier)
    requires chain != [] && name in chain[0].symbolTable
    ensures Assignable(chain, name) <==> !chain[0].symbolTable[name].isReadOnly
  {
  }

  /** A load and a store of the variable found. */
  lemma AssignedAt(get: Resolve, put: Store, code: Code, front: seq<Scope>, chain: seq<Scope>, later: seq<Scope>, name: Identifier, depth: nat,
                   memory: Memory, value: Value)
    requires CanOptimizeNonLocals(code) && name != ARGUMENTS
    requires ChainValid(chain) && ChainValid(later) && SameShape(chain, later) && Front(code, front, name)
    requires depth < |chain| && forall d | 0 <= d < depth :: Settled(chain[d], name)
    requires name in chain[depth].symbolTable && !chain[depth].symbolTable[name].isReadOnly
    requires var last, here, index := depth == |chain| - 1, chain[depth], chain[depth].symbolTable[name].index;
      && get == (if last then OpGetGlobalVar(here.id, index) else OpGetScopedVar(index, depth))
      && put == if last then OpPutGlobalVar(here.id, index) else OpPutScopedVar(index, depth)
    ensures Assigns(get, put, code, front, later, name, memory, value)
  {
    hide Settled, Front, ScopeValid, Search, Has, Assignable;
    FrontValid(code, front, later, name);
    PassedOver(code, front, chain, later, name, depth);
    var all := front + later;
    assert all[|all| - 1] == later[|later| - 1] && all[depth + |front|] == later[depth];
    assert SameScopeShape(chain[depth], later[depth]);
    FoundFirst(later[depth..], name);
    AssignableFirst(later[depth..], name);
  }

  /** The nearest symbol, if nothing before it can come to have the name. */
  ghost predicate NearestSymbol(chain: seq<Scope>, name: Identifier, d: nat) {
    d < |chain| && name in chain[d].symbolTable && forall k | 0 <= k < d :: Settled(chain[k], name)
  }

  lemma OneNearest(chain: seq<Scope>, name: Identifier)
    ensures forall d: nat, e: nat | NearestSymbol(chain, name, d) && NearestSymbol(chain, name, e) :: d == e
    ensures forall d: nat, e: nat | NearestSymbol(chain, name, d) && e < |chain|
              && !Settled(chain[e], name) && name !in chain[e].symbolTable :: d < e
  {
  }

  /** Returns whether the lookup was improved at all; `index` is None for a missing symbol. */
  method FindScopedProperty(code: Code, chain: seq<Scope>, name: Identifier, forWriting: bool)
    returns (optimized: bool, index: Option<int>, stackDepth: nat, globalObject: Option<nat>)
    requires ChainValid(chain) && (code.codeType.GlobalCode? ==> |chain| == 1)
    ensures !CanOptimizeNonLocals(code) || name == ARGUMENTS ==>
      && !optimized && index == None && stackDepth == 0
      && globalObject == if ShouldOptimizeLocals(code) && code.codeType.GlobalCode? then Some(chain[0].id) else None
    ensures optimized ==>
      && CanOptimizeNonLocals(code) && name != ARGUMENTS
      && stackDepth < |chain| && (forall d | 0 <= d < stackDepth :: Settled(chain[d], name))
      && globalObject == (if stackDepth == |chain| - 1 then Some(chain[|chain| - 1].id) else None)
      && (index.Some? <==> name in chain[stackDepth].symbolTable)
      && (index.Some? ==> chain[stackDepth].isVariableObject && index.value == chain[stackDepth].symbolTable[name].index)
      && (index.None? ==> !chain[stackDepth].isVariableObject || chain[stackDepth].isDynamic)
    ensures CanOptimizeNonLocals(code) && name != ARGUMENTS ==>
      (!optimized <==> forWriting && exists d: nat :: NearestSymbol(chain, name, d) && chain[d].symbolTable[name].isReadOnly)
    ensures CanOptimizeNonLocals(code) && name != ARGUMENTS && !optimized ==>
      && index == None && stackDepth == 0
      && exists d: nat :: NearestSymbol(chain, name, d) && globalObject == if d == |chain| - 1 then Some(chain[d].id) else None
  {
    OneNearest(chain, name);
    globalObject := None;
    if name == ARGUMENTS || !CanOptimizeNonLocals(code) {
      if ShouldOptimizeLocals(code) && code.codeType.GlobalCode? {
        globalObject := Some(chain[0].id);
      }
      return false, None, 0, globalObject;
    }
    var depth := 0;
    while depth < |chain|
      invariant depth <= |chain| && forall d | 0 <= d < depth :: Settled(chain[d], name)
    {
      var currentScope := chain[depth];
      if !currentScope.isVariableObject {
        break;
      }
      if name in currentScope.symbolTable {
        var entry := currentScope.symbolTable[name];
        if depth + 1 == |chain| {
          globalObject := Some(currentScope.id);
        }
        assert NearestSymbol(chain, name, depth);
        if entry.isReadOnly && forWriting {
          return false, None, 0, globalObject;
        }
        return true, Some(entry.index), depth, globalObject;
      }
      if currentScope.isDynamic {
        break;
      }
      depth := depth + 1;
    }
    // The property is not located, but a few lookups are avoided.
    if depth + 1 == |chain| {
      globalObject := Some(chain[depth].id);
    }
    return true, None, depth, globalObject;
  }

  function EmitGetScopedVar(depth: nat, index: int, globalObject: Option<nat>): Resolve {
    if globalObject.Some? then OpGetGlobalVar(globalObject.value, index) else OpGetScopedVar(index, depth)
  }

  function EmitPutScopedVar(depth: nat, index: int, globalObject: Option<nat>): Store {
    if globalObject.Some? then OpPutGlobalVar(globalObject.value, index) else OpPutScopedVar(index, depth)
  }

  /** Assignment to a name that is no local, as `x = e`, `x += e` and `x++`: the load, which only the
      last two make, and the store.  None when the assignment is made by name at run time. */
  method EmitAssignResolve(code: Code, chain: seq<Scope>, name: Identifier) returns (access: Option<(Resolve, Store)>)
    requires ChainValid(chain) && (code.codeType.GlobalCode? ==> |chain| == 1)
    ensures access.Some? ==> AssignsAsSearch(access.value.0, access.value.1, code, chain, name)
    ensures access.Some? <==>
      && CanOptimizeNonLocals(code) && name != ARGUMENTS
      && exists d: nat :: NearestSymbol(chain, name, d) && !chain[d].symbolTable[name].isReadOnly
  {
    hide Search, Has, Assignable, SameShape, Assigns, ScopeValid, Front;
    OneNearest(chain, name);
    var optimized, index, depth, globalObject := FindScopedProperty(code, chain, name, true);
    if !optimized || index.None? {
      return None;
    }
    var get, put := EmitGetScopedVar(depth, index.value, globalObject), EmitPutScopedVar(depth, index.value, globalObject);
    assert NearestSymbol(chain, name, depth);
    forall later, front, memory, value | ChainValid(later) && SameShape(chain, later) && Front(code, front, name)
      ensures Assigns(get, put, code, front, later, name, memory, value)
    {
      AssignedAt(get, put, code, front, chain, later, name, depth, memory, value);
    }
    return Some((get, put));
  }

  method EmitResolve(code: Code, chain: seq<Scope>, name: Identifier) returns (i: Resolve)
    requires ChainValid(chain) && (code.codeType.GlobalCode? ==> |chain| == 1)
    ensures ResolvesAsSearch(i, code, chain, name)
    ensures CanOptimizeNonLocals(code) && name != ARGUMENTS ==> !i.OpResolve?
    ensures CanOptimizeNonLocals(code) && name != ARGUMENTS ==>
      ((i.OpGetScopedVar? || i.OpGetGlobalVar?) <==>
        exists d :: 0 <= d < |chain| && name in chain[d].symbolTable && forall k | 0 <= k < d :: Settled(chain[k], name))
  {
    hide Search, Has, BindingIn, HitRight, SameShape, SameBinding, ScopeValid;
    var optimized, index, depth, globalObject := FindScopedProperty(code, chain, name, false);
    if !optimized && globalObject.None? {
      i := OpResolve;
    } else if index.Some? {
      i := EmitGetScopedVar(depth, index.value, globalObject);
    } else if globalObject.Some? {
      i := OpResolveGlobal(globalObject.value);
    } else {
      i := OpResolveSkip(depth);
    }
    forall later, front, hit | ChainValid(later) && SameShape(chain, later) && Front(code, front, name)
      ensures SameBinding(i, code, front, later, name, hit) <==> (i.OpResolveGlobal? ==> HitRight(hit, later, name))
    {
      if optimized {
        StoppedAt(i, code, front, chain, later, name, depth, hit);
      } else {
        NotOptimized(i, code, front, chain, later, name, hit);
      }
    }
  }
}
