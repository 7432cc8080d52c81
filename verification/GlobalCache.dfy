/** How `resolve_global` remembers where the global object keeps a property.

    The instruction holds a structure and an offset.  While the global object has that
    structure, the slot at that offset is loaded without any lookup. */
module GlobalCache {
  import opened Bytecode
  import opened ProtoChain
  import opened Resolution

  ghost predicate FoundSlot(w: World, o: ObjectId, name: Identifier, slot: Slot)
    requires WorldValid(w)
  {
    exists n: nat :: FoundAt(w, o, name, n, slot.holder, slot.offset)
  }

  /** The global object as a scope.  A name declared as a global variable is never one of
      the object's own properties as well. */
  ghost predicate IsGlobal(scope: Scope, w: World, g: ObjectId)
    requires WorldValid(w)
  {
    && g in w.objects && scope.id == g && scope.isVariableObject && scope.isDynamic && !scope.isActivation
    && (forall name | name in Own(w, w.objects[g].structure) :: name !in scope.symbolTable)
    && (forall name, slot :: FoundSlot(w, g, name, slot) <==> (name in scope.properties && scope.properties[name] == slot))
  }

  // --------------------------------------------------------- the instruction

  class ResolveGlobal {
    const globalObject: ObjectId
    const name: Identifier
    var structureID: Option<StructureID>
    var offset: nat

    constructor (globalObject: ObjectId, name: Identifier)
      ensures this.globalObject == globalObject && this.name == name && structureID == None
    {
      this.globalObject, this.name := globalObject, name;
      structureID, offset := None, 0;
    }

    /** The slot loaded without a lookup, if the structures match. */
    function Hit(w: World): (hit: Option<Slot>)
      requires globalObject in w.objects
      reads this
    {
      if structureID == Some(w.objects[globalObject].structure) then Some(Slot(globalObject, offset)) else None
    }

    method Execute(w: World, scope: Scope, ghost depth: nat) returns (b: Binding)
      requires WorldValid(w) && IsGlobal(scope, w, globalObject)
      requires Ends(w, Some(globalObject), depth)
      modifies this
      ensures old(Hit(w)).Some? ==> b == AsProperty(globalObject, old(Hit(w)).value)
      ensures old(Hit(w)).None? ==> b == Search([scope], name)
      ensures if old(Hit(w)).None? && b.AsProperty?
        then structureID == Some(w.objects[globalObject].structure) && offset == b.slot.offset
        else structureID == old(structureID) && offset == old(offset)
    {
      if structureID == Some(w.objects[globalObject].structure) {
        return AsProperty(globalObject, Slot(globalObject, offset));
      }
      b := GetPropertySlot(w, scope, globalObject, name, depth);
      // Where the slot was found plays no part.
      if b.AsProperty? {
        structureID, offset := Some(w.objects[globalObject].structure), b.slot.offset;
      }
    }
  }

  /** The lookup: the object's own properties, its variables, then its prototypes. */
  method GetPropertySlot(w: World, scope: Scope, g: ObjectId, name: Identifier, ghost depth: nat) returns (b: Binding)
    requires WorldValid(w) && IsGlobal(scope, w, g) && Ends(w, Some(g), depth)
    ensures b == Search([scope], name)
  {
    hide WorldValid, FoundAt, FoundSlot, Ends, Evolves;
    var o := g;
    ghost var n := depth;
    SearchOne(scope, name);
    while true
      invariant o in w.objects && Ends(w, Some(o), n)
      invariant forall slot :: FoundSlot(w, g, name, slot) <==> FoundSlot(w, o, name, slot)
      invariant o != g ==> name !in scope.symbolTable
      decreases n
    {
      StructureHeld(w, o);
      var structure := w.objects[o].structure;
      if name in Own(w, structure) {
        FoundHere(w, o, name);
        assert FoundSlot(w, g, name, Slot(o, Own(w, structure)[name]));
        return AsProperty(g, Slot(o, Own(w, structure)[name]));
      }
      if o == g && name in scope.symbolTable {
        return InRegister(g, scope.symbolTable[name].index);
      }
      assert name in scope.properties ==> FoundSlot(w, g, name, scope.properties[name]);
      NextUp(w, o, name, n);
      if Proto(w, structure).None? {
        return Unresolvable;
      }
      o := Proto(w, structure).value;
      n := n - 1;
    }
  }

  lemma SearchOne(scope: Scope, name: Identifier)
    requires !scope.isActivation
    ensures Search([scope], name) ==
      if name in scope.symbolTable then InRegister(scope.id, scope.symbolTable[name].index)
      else if name in scope.properties then AsProperty(scope.id, scope.properties[name])
      else Unresolvable
  {
    assert Search([scope][1..], name) == Unresolvable;
  }

  lemma FoundHere(w: World, o: ObjectId, name: Identifier)
    requires WorldValid(w) && o in w.objects && name in Own(w, w.objects[o].structure)
    ensures forall slot :: FoundSlot(w, o, name, slot) <==> slot == Slot(o, Own(w, w.objects[o].structure)[name])
  {
    assert FoundAt(w, o, name, 0, o, Own(w, w.objects[o].structure)[name]);
  }

  lemma NextUp(w: World, o: ObjectId, name: Identifier, n: nat)
    requires WorldValid(w) && o in w.objects && name !in Own(w, w.objects[o].structure) && Ends(w, Some(o), n)
    ensures var up := Proto(w, w.objects[o].structure);
      && (up.None? ==> forall slot :: !FoundSlot(w, o, name, slot))
      && (up.Some? ==> n > 0 && up.value in w.objects && Ends(w, up, n - 1))
      && (up.Some? ==> forall slot :: FoundSlot(w, o, name, slot) <==> FoundSlot(w, up.value, name, slot))
  {
    var up := Proto(w, w.objects[o].structure);
    if up.Some? {
      forall slot ensures FoundSlot(w, o, name, slot) <==> FoundSlot(w, up.value, name, slot) {
        if FoundSlot(w, up.value, name, slot) {
          var k: nat :| FoundAt(w, up.value, name, k, slot.holder, slot.offset);
          assert FoundAt(w, o, name, k + 1, slot.holder, slot.offset);
        }
        if FoundSlot(w, o, name, slot) {
          var k: nat :| FoundAt(w, o, name, k, slot.holder, slot.offset);
          assert FoundAt(w, up.value, name, k - 1, slot.holder, slot.offset);
        }
      }
    }
  }

  // -------------------------------------------------------- when it is right

  /** Whatever happens later: while the structure is the one remembered, a search of the
      global object finds its slot at the offset remembered. */
  ghost predicate RightFromNowOn(w: World, g: ObjectId, structure: StructureID, name: Identifier, offset: nat) {
    forall w', scope | Evolves(w, w') && IsGlobal(scope, w', g) && w'.objects[g].structure == structure ::
      Search([scope], name) == AsProperty(g, Slot(g, offset))
  }

  /** What the instruction remembers after a lookup stays right exactly if the property was
      the global object's own and the object no dictionary. */
  lemma RememberedRightIff(w: World, scope: Scope, g: ObjectId, name: Identifier, slot: Slot)
    requires WorldValid(w) && IsGlobal(scope, w, g) && Search([scope], name) == AsProperty(g, slot)
    ensures var structure := w.objects[g].structure;
      RightFromNowOn(w, g, structure, name, slot.offset) <==> slot.holder == g && !w.structures[structure].isDictionary
  {
    var structure := w.objects[g].structure;
    if slot.holder != g {
      EvolvesReflexive(w);
    } else if w.structures[structure].isDictionary {
      MovedSlot(w, scope, g, name, slot);
    } else {
      forall w', scope' | Evolves(w, w') && IsGlobal(scope', w', g) && w'.objects[g].structure == structure
        ensures Search([scope'], name) == AsProperty(g, slot)
      {
        StaysFound(w, w', scope, scope', g, name, slot);
      }
    }
  }

  lemma StaysFound(w: World, w': World, scope: Scope, scope': Scope, g: ObjectId, name: Identifier, slot: Slot)
    requires Evolves(w, w') && IsGlobal(scope, w, g) && Search([scope], name) == AsProperty(g, slot) && slot.holder == g
    requires !w.structures[w.objects[g].structure].isDictionary
    requires IsGlobal(scope', w', g) && w'.objects[g].structure == w.objects[g].structure
    ensures Search([scope'], name) == AsProperty(g, slot)
  {
    hide FoundAt;
    SearchOne(scope, name);
    SearchOne(scope', name);
    assert FoundSlot(w, g, name, slot);
    var n: nat :| FoundAt(w, g, name, n, g, slot.offset);
    SelfFound(w, g, name, n, g, slot.offset);
    FoundAtOnce(w, g, name, slot.offset);
    FixedStructureKept(w, w', g, g, w.objects[g].structure);
    FoundHere(w', g, name);
    assert FoundSlot(w', g, name, slot);
  }

  lemma FoundAtOnce(w: World, g: ObjectId, name: Identifier, offset: nat)
    requires WorldValid(w) && FoundAt(w, g, name, 0, g, offset)
    ensures name in Own(w, w.objects[g].structure) && Own(w, w.objects[g].structure)[name] == offset
  {
  }

  /** A dictionary can give a property another slot and keep its structure. */
  function Moved(w: World, s: StructureID, name: Identifier, offset: nat): World
    requires s in w.structures
  {
    w.(structures := w.structures[s := w.structures[s].(own := w.structures[s].own[name := offset])])
  }

  lemma {:induction false} MovedFinds(w: World, s: StructureID, name: Identifier, offset: nat, o: ObjectId, other: Identifier, n: nat, holder: ObjectId, at: nat)
    requires WorldValid(w) && s in w.structures && WorldValid(Moved(w, s, name, offset)) && other != name
    ensures FoundAt(Moved(w, s, name, offset), o, other, n, holder, at) <==> FoundAt(w, o, other, n, holder, at)
    decreases n
  {
    if n > 0 && o in w.objects && Proto(w, w.objects[o].structure).Some? {
      MovedFinds(w, s, name, offset, Proto(w, w.objects[o].structure).value, other, n - 1, holder, at);
    }
  }

  lemma MovedSlot(w: World, scope: Scope, g: ObjectId, name: Identifier, slot: Slot)
    requires WorldValid(w) && IsGlobal(scope, w, g) && Search([scope], name) == AsProperty(g, slot) && slot.holder == g
    requires w.structures[w.objects[g].structure].isDictionary
    ensures !RightFromNowOn(w, g, w.objects[g].structure, name, slot.offset)
  {
    hide FoundAt, WorldValid;
    StructureHeld(w, g);
    var s, offset := w.objects[g].structure, slot.offset + 1;
    SearchOne(scope, name);
    assert FoundSlot(w, g, name, slot);
    var n: nat :| FoundAt(w, g, name, n, g, slot.offset);
    SelfFound(w, g, name, n, g, slot.offset);
    FoundAtOnce(w, g, name, slot.offset);
    var w', scope' := Moved(w, s, name, offset), scope.(properties := scope.properties[name := Slot(g, offset)]);
    MovedEvolves(w, s, name, offset);
    MovedGlobal(w, scope, g, name, offset);
    SearchOne(scope', name);
  }

  lemma MovedEvolves(w: World, s: StructureID, name: Identifier, offset: nat)
    requires WorldValid(w) && s in w.structures && w.structures[s].isDictionary
    ensures Evolves(w, Moved(w, s, name, offset))
  {
  }

  lemma MovedGlobal(w: World, scope: Scope, g: ObjectId, name: Identifier, offset: nat)
    requires WorldValid(w) && IsGlobal(scope, w, g) && name in Own(w, w.objects[g].structure)
    requires WorldValid(Moved(w, w.objects[g].structure, name, offset))
    ensures IsGlobal(scope.(properties := scope.properties[name := Slot(g, offset)]), Moved(w, w.objects[g].structure, name, offset), g)
  {
    hide FoundSlot, WorldValid;
    StructureHeld(w, g);
    var s := w.objects[g].structure;
    var w', scope' := Moved(w, s, name, offset), scope.(properties := scope.properties[name := Slot(g, offset)]);
    FoundHere(w', g, name);
    forall other, at ensures FoundSlot(w', g, other, at) <==> (other in scope'.properties && scope'.properties[other] == at) {
      if other != name { MovedSlots(w, s, name, offset, g, other, at); }
    }
  }

  lemma MovedSlots(w: World, s: StructureID, name: Identifier, offset: nat, o: ObjectId, other: Identifier, at: Slot)
    requires WorldValid(w) && s in w.structures && WorldValid(Moved(w, s, name, offset)) && other != name
    ensures FoundSlot(Moved(w, s, name, offset), o, other, at) <==> FoundSlot(w, o, other, at)
  {
    forall n: nat ensures FoundAt(Moved(w, s, name, offset), o, other, n, at.holder, at.offset) <==> FoundAt(w, o, other, n, at.holder, at.offset) {
      MovedFinds(w, s, name, offset, o, other, n, at.holder, at.offset);
    }
  }

  /** A `resolve_global` chosen by the generator, with what it remembers, finds what a
      search from the innermost scope finds. */
  lemma RememberedResolves(i: Resolve, code: Code, chain: seq<Scope>, front: seq<Scope>, later: seq<Scope>, name: Identifier,
                           w: World, w': World, scope: Scope, slot: Slot)
    requires ResolvesAsSearch(i, code, chain, name) && i.OpResolveGlobal?
    requires ChainValid(later) && SameShape(chain, later) && Front(code, front, name)
    requires Evolves(w, w') && IsGlobal(scope, w, scope.id) && IsGlobal(later[|later| - 1], w', scope.id)
    requires Search([scope], name) == AsProperty(scope.id, slot)
    requires slot.holder == scope.id && !w.structures[w.objects[scope.id].structure].isDictionary
    ensures var hit := if w'.objects[scope.id].structure == w.objects[scope.id].structure then Some(Slot(scope.id, slot.offset)) else None;
      SameBinding(i, code, front, later, name, hit)
  {
    hide IsGlobal, Search, WorldValid, SameBinding, Front, SameShape;
    var global, g := later[|later| - 1], scope.id;
    IdOfGlobal(scope, w, g);
    IdOfGlobal(global, w', g);
    var hit := if w'.objects[g].structure == w.objects[g].structure then Some(Slot(g, slot.offset)) else None;
    if hit.Some? {
      StaysFound(w, w', scope, global, g, name, slot);
    }
    GlobalFound(later, name, hit);
  }

  lemma IdOfGlobal(scope: Scope, w: World, g: ObjectId)
    requires WorldValid(w) && IsGlobal(scope, w, g)
    ensures scope.id == g && g in w.objects
  {
  }

  // ------------------------------------------------------ when it goes wrong

  lemma FoundIn(scope: Scope, w: World, g: ObjectId)
    requires WorldValid(w) && g in w.objects && Proto(w, w.objects[g].structure).None?
    requires scope.id == g && scope.isVariableObject && scope.isDynamic && !scope.isActivation && scope.symbolTable == map[]
    requires scope.properties == map name | name in Own(w, w.objects[g].structure) :: Slot(g, Own(w, w.objects[g].structure)[name])
    ensures IsGlobal(scope, w, g)
  {
    forall name, slot ensures FoundSlot(w, g, name, slot) <==> (name in scope.properties && scope.properties[name] == slot) {
      if name in scope.properties { FoundHere(w, g, name); }
    }
  }

  /** A global `x` is deleted from a dictionary and a global `y` takes over its slot: the
      instruction that found `x` finds it again, where a search finds nothing. */
  method DeletedGlobal() returns (first: Binding, second: Binding, searched: Binding)
    ensures first == second == AsProperty(0, Slot(0, 0)) && searched == Unresolvable
  {
    var w := World(map[0 := Instance(0, map[0 := Null])], map[0 := Structure(map["x" := 0], None, true)]);
    var w' := World(map[0 := Instance(0, map[0 := Undefined])], map[0 := Structure(map["y" := 0], None, true)]);
    var scope := Scope(0, true, false, true, map[], map["x" := Slot(0, 0)]);
    var scope' := Scope(0, true, false, true, map[], map["y" := Slot(0, 0)]);
    FoundIn(scope, w, 0);
    FoundIn(scope', w', 0);
    assert Evolves(w, w');
    var i := new ResolveGlobal(0, "x");
    SearchOne(scope, "x");
    SearchOne(scope', "x");
    first := i.Execute(w, scope, 1);
    second := i.Execute(w', scope', 1);
    searched := Search([scope'], "x");
  }

  /** A name found on the prototype of the global object: the second time the instruction
      loads the global object's own property at the prototype's offset. */
  method InheritedGlobal() returns (first: Binding, second: Binding)
    ensures first == AsProperty(0, Slot(1, 0)) && second == AsProperty(0, Slot(0, 0))
  {
    var s0, s1 := Structure(map["y" := 0], Some(1), false), Structure(map["x" := 0], None, false);
    var w := World(map[0 := Instance(0, map[0 := Null]), 1 := Instance(1, map[0 := Undefined])], map[0 := s0, 1 := s1]);
    var scope := Scope(0, true, false, true, map[], map["x" := Slot(1, 0), "y" := Slot(0, 0)]);
    forall name, slot ensures FoundSlot(w, 0, name, slot) <==> (name in scope.properties && scope.properties[name] == slot) {
      if name == "y" {
        FoundHere(w, 0, name);
      } else {
        NextUp(w, 0, name, 2);
        if name == "x" { FoundHere(w, 1, name); } else { NextUp(w, 1, name, 1); }
      }
    }
    SearchOne(scope, "x");
    var i := new ResolveGlobal(0, "x");
    first := i.Execute(w, scope, 2);
    second := i.Execute(w, scope, 2);
  }
}
