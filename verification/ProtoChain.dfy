/** Caching property accesses: stubs that check structures instead of looking properties up.

    A structure fixes where an object keeps each of its own properties, and its prototype.
    A stub for a property of a prototype checks the structure of every object on the way. */
module ProtoChain {
  import opened Bytecode

  type ObjectId = nat

  /** Structures are numbered in the order they are made. */
  type StructureID = nat

  /** A dictionary is not shared, and its properties may change in place. */
  datatype Structure = Structure(own: map<string, nat>, prototype: Option<ObjectId>, isDictionary: bool)

  datatype Instance = Instance(structure: StructureID, storage: map<nat, Value>)

  datatype World = World(objects: map<ObjectId, Instance>, structures: map<StructureID, Structure>)

  predicate WorldValid(w: World) {
    && (forall o | o in w.objects :: w.objects[o].structure in w.structures)
    && (forall s | s in w.structures && w.structures[s].prototype.Some? :: w.structures[s].prototype.value in w.objects)
  }

  function Own(w: World, s: StructureID): map<string, nat>
    requires s in w.structures
  {
    w.structures[s].own
  }

  function Proto(w: World, s: StructureID): Option<ObjectId>
    requires s in w.structures
  {
    w.structures[s].prototype
  }

  /** What any other code can do between two points in time.  An object that changes its
      structure takes a younger one; a structure never changes its prototype; only
      dictionaries change their properties, and a dictionary may become fixed. */
  predicate Evolves(w: World, w': World) {
    && WorldValid(w) && WorldValid(w')
    && (forall o | o in w.objects :: o in w'.objects && w.objects[o].structure <= w'.objects[o].structure)
    && (forall s | s in w.structures ::
          && s in w'.structures && Proto(w', s) == Proto(w, s)
          && (!w.structures[s].isDictionary ==> w'.structures[s] == w.structures[s]))
  }

  lemma EvolvesTransitive(w: World, w': World, w'': World)
    requires Evolves(w, w') && Evolves(w', w'')
    ensures Evolves(w, w'')
  {
    forall s | s in w.structures && !w.structures[s].isDictionary ensures w''.structures[s] == w.structures[s] {
      assert w'.structures[s] == w.structures[s];
    }
  }

  // ----------------------------------------------------------- plain lookup

  /** The lookup from `o` finds `name` at slot `offset` of `holder`, `n` prototypes up. */
  predicate FoundAt(w: World, o: ObjectId, name: string, n: nat, holder: ObjectId, offset: nat)
    requires WorldValid(w)
    decreases n
  {
    && o in w.objects
    && var s := w.objects[o].structure;
    if n == 0 then name in Own(w, s) && Own(w, s)[name] == offset && holder == o
    else name !in Own(w, s) && Proto(w, s).Some? && FoundAt(w, Proto(w, s).value, name, n - 1, holder, offset)
  }

  lemma {:induction false} FoundOnce(w: World, o: ObjectId, name: string, n: nat, holder: ObjectId, offset: nat, n': nat, holder': ObjectId, offset': nat)
    requires WorldValid(w) && FoundAt(w, o, name, n, holder, offset) && FoundAt(w, o, name, n', holder', offset')
    ensures n == n' && holder == holder' && offset == offset'
    decreases n
  {
    if n > 0 { FoundOnce(w, Proto(w, w.objects[o].structure).value, name, n - 1, holder, offset, n' - 1, holder', offset'); }
  }

  // ------------------------------------------------------------------ stubs

  datatype Check = Check(proto: ObjectId, structure: StructureID)

  /** Checks the structure of the base, then those of fixed prototypes, and loads a slot. */
  datatype Stub = Stub(base: StructureID, checks: seq<Check>, holder: Option<ObjectId>, offset: nat)

  predicate Hits(w: World, stub: Stub, o: ObjectId) {
    && o in w.objects && w.objects[o].structure == stub.base
    && forall k | 0 <= k < |stub.checks| ::
         stub.checks[k].proto in w.objects && w.objects[stub.checks[k].proto].structure == stub.checks[k].structure
  }

  /** The object whose slot is loaded: a prototype, or the base itself. */
  function HolderOf(stub: Stub, o: ObjectId): ObjectId {
    if stub.holder.Some? then stub.holder.value else o
  }

  /** If the stub's checks pass, plain lookup finds the slot it loads. */
  ghost predicate Serves(w: World, stub: Stub, o: ObjectId, name: string)
    requires WorldValid(w)
  {
    Hits(w, stub, o) ==> exists n :: FoundAt(w, o, name, n, HolderOf(stub, o), stub.offset)
  }

  /** From now on, for any object and whatever happens. */
  ghost predicate Sound(w: World, stub: Stub, name: string) {
    forall w', o | Evolves(w, w') :: Serves(w', stub, o, name)
  }

  // ----------------------------------------------------------------- chains

  /** `chain` lists the structures of the prototypes from `proto` on, as they were in `w`. */
  predicate ChainAt(w: World, proto: Option<ObjectId>, chain: seq<StructureID>)
    requires WorldValid(w)
    decreases |chain|
  {
    match proto
    case None => chain == []
    case Some(p) =>
      p in w.objects && chain != [] && chain[0] == w.objects[p].structure && ChainAt(w, Proto(w, chain[0]), chain[1..])
  }

  /** As far as it goes, `chain` lists those structures. */
  predicate Lists(w: World, proto: Option<ObjectId>, chain: seq<StructureID>)
    requires WorldValid(w)
    decreases |chain|
  {
    chain == [] ||
    (proto.Some? && proto.value in w.objects && chain[0] == w.objects[proto.value].structure && Lists(w, Proto(w, chain[0]), chain[1..]))
  }

  lemma {:induction false} ChainLists(w: World, proto: Option<ObjectId>, chain: seq<StructureID>)
    requires WorldValid(w) && ChainAt(w, proto, chain)
    ensures Lists(w, proto, chain)
    decreases |chain|
  {
    if chain != [] { ChainLists(w, Proto(w, chain[0]), chain[1..]); }
  }

  /** The checks for the first prototypes of `s`: each prototype is that of the structure before. */
  predicate ChecksFollow(w: World, s: StructureID, chain: seq<StructureID>, checks: seq<Check>)
    decreases |checks|
  {
    checks == [] ||
    (&& s in w.structures && Proto(w, s) == Some(checks[0].proto)
     && chain != [] && checks[0].structure == chain[0]
     && ChecksFollow(w, chain[0], chain[1..], checks[1..]))
  }

  /** No object from `o` to `n` prototypes up is a dictionary. */
  predicate FixedUpTo(w: World, o: ObjectId, n: nat)
    requires WorldValid(w)
    decreases n
  {
    && o in w.objects
    && var s := w.objects[o].structure;
    && !w.structures[s].isDictionary
    && (n > 0 && Proto(w, s).Some? ==> FixedUpTo(w, Proto(w, s).value, n - 1))
  }

  /** Structures only get younger, so one that comes back never left. */
  lemma StructureKept(w0: World, w1: World, w2: World, o: ObjectId)
    requires Evolves(w0, w1) && Evolves(w1, w2)
    requires o in w0.objects && o in w2.objects && w0.objects[o].structure == w2.objects[o].structure
    ensures o in w1.objects && w1.objects[o].structure == w0.objects[o].structure
  {
  }

  lemma FixedStructureKept(w: World, w': World, o: ObjectId, o': ObjectId, s: StructureID)
    requires Evolves(w, w') && o in w.objects && w.objects[o].structure == s && o' in w'.objects && w'.objects[o'].structure == s
    requires !w.structures[s].isDictionary
    ensures s in w'.structures && w'.structures[s] == w.structures[s]
  {
  }

  lemma PrototypeKept(w: World, w': World, s: StructureID)
    requires Evolves(w, w') && s in w.structures
    ensures s in w'.structures && Proto(w', s) == Proto(w, s)
    ensures Proto(w, s).Some? ==> Proto(w, s).value in w.objects && Proto(w, s).value in w'.objects
  {
  }

  /** The chain may have been listed long before the stub is made: if its checks still
      pass later, no structure on the way has changed in between.  `a` stands for the base
      when the stub is made, `b` for the base when it is used. */
  lemma {:induction false} ChecksFind(w0: World, w1: World, w2: World, s: StructureID, chain: seq<StructureID>, checks: seq<Check>,
                                      a: ObjectId, b: ObjectId, name: string, n: nat, holder: ObjectId, offset: nat)
    requires Evolves(w0, w1) && Evolves(w1, w2) && s in w1.structures && Lists(w0, Proto(w1, s), chain)
    requires a in w1.objects && w1.objects[a].structure == s && FixedUpTo(w1, a, n) && FoundAt(w1, a, name, n, holder, offset)
    requires b in w2.objects && w2.objects[b].structure == s
    requires |checks| == n && ChecksFollow(w1, s, chain, checks)
    requires forall k | 0 <= k < n :: checks[k].proto in w2.objects && w2.objects[checks[k].proto].structure == checks[k].structure
    ensures n > 0 ==> checks[n - 1].proto == holder
    ensures FoundAt(w2, b, name, n, if n == 0 then b else holder, offset)
    decreases n
  {
    hide Evolves, WorldValid;
    EvolvesValid(w0, w1);
    EvolvesValid(w1, w2);
    FixedStructureKept(w1, w2, a, b, s);
    if n > 0 {
      var p := checks[0].proto;
      StructureKept(w0, w1, w2, p);
      StructureHeld(w0, p);
      PrototypeKept(w0, w1, chain[0]);
      ChecksFind(w0, w1, w2, chain[0], chain[1..], checks[1..], p, p, name, n - 1, holder, offset);
    }
  }

  lemma StructureHeld(w: World, o: ObjectId)
    requires WorldValid(w) && o in w.objects
    ensures w.objects[o].structure in w.structures
  {
  }

  lemma ChainStubServes(w0: World, w1: World, w2: World, s: StructureID, chain: seq<StructureID>, checks: seq<Check>,
                        a: ObjectId, b: ObjectId, name: string, n: nat, holder: ObjectId, offset: nat)
    requires Evolves(w0, w1) && Evolves(w1, w2) && s in w1.structures && Lists(w0, Proto(w1, s), chain)
    requires a in w1.objects && w1.objects[a].structure == s && FixedUpTo(w1, a, n) && FoundAt(w1, a, name, n, holder, offset)
    requires n > 0 && |checks| == n && ChecksFollow(w1, s, chain, checks)
    ensures Serves(w2, Stub(s, checks, Some(checks[n - 1].proto), offset), b, name)
  {
    hide Evolves, WorldValid, Lists, FixedUpTo, FoundAt, ChecksFollow;
    EvolvesValid(w0, w1);
    EvolvesValid(w1, w2);
    var stub := Stub(s, checks, Some(checks[n - 1].proto), offset);
    if Hits(w2, stub, b) {
      ChecksFind(w0, w1, w2, s, chain, checks, a, b, name, n, holder, offset);
      assert FoundAt(w2, b, name, n, HolderOf(stub, b), stub.offset);
    }
  }

  /** Whatever world the chain was listed in, the stub made of it is sound. */
  lemma ChainStubSound(w0: World, w1: World, s: StructureID, chain: seq<StructureID>, checks: seq<Check>,
                       a: ObjectId, name: string, n: nat, holder: ObjectId, offset: nat)
    requires Evolves(w0, w1) && s in w1.structures && Lists(w0, Proto(w1, s), chain)
    requires a in w1.objects && w1.objects[a].structure == s && FixedUpTo(w1, a, n) && FoundAt(w1, a, name, n, holder, offset)
    requires n > 0 && |checks| == n && ChecksFollow(w1, s, chain, checks)
    ensures Sound(w1, Stub(s, checks, Some(checks[n - 1].proto), offset), name)
  {
    hide Evolves, WorldValid, Lists, FixedUpTo, FoundAt, ChecksFollow, Serves;
    EvolvesValid(w0, w1);
    var stub := Stub(s, checks, Some(checks[n - 1].proto), offset);
    forall w2, b | Evolves(w1, w2) ensures WorldValid(w2) && Serves(w2, stub, b, name) {
      EvolvesValid(w1, w2);
      ChainStubServes(w0, w1, w2, s, chain, checks, a, b, name, n, holder, offset);
    }
  }

  lemma EvolvesValid(w: World, w': World)
    requires Evolves(w, w')
    ensures WorldValid(w) && WorldValid(w')
  {
  }

  lemma SelfStubSound(w: World, a: ObjectId, name: string, offset: nat)
    requires WorldValid(w) && FoundAt(w, a, name, 0, a, offset) && !w.structures[w.objects[a].structure].isDictionary
    ensures Sound(w, Stub(w.objects[a].structure, [], None, offset), name)
  {
    hide Evolves, WorldValid;
    StructureHeld(w, a);
    var stub := Stub(w.objects[a].structure, [], None, offset);
    forall w', b | Evolves(w, w') ensures WorldValid(w') && Serves(w', stub, b, name) {
      EvolvesValid(w, w');
      if Hits(w', stub, b) {
        FixedStructureKept(w, w', a, b, stub.base);
        assert FoundAt(w', b, name, 0, HolderOf(stub, b), stub.offset);
      }
    }
  }

  // ----------------------------------------------------- long enough chains

  /** The number of prototypes from `proto` on. */
  predicate Ends(w: World, proto: Option<ObjectId>, n: nat)
    requires WorldValid(w)
    decreases n
  {
    match proto
    case None => true
    case Some(p) => n > 0 && p in w.objects && Ends(w, Proto(w, w.objects[p].structure), n - 1)
  }

  /** A chain listed now reaches any property found now. */
  lemma {:induction false} FreshChainReaches(w: World, o: ObjectId, chain: seq<StructureID>, name: string, n: nat, holder: ObjectId, offset: nat)
    requires WorldValid(w) && FoundAt(w, o, name, n, holder, offset) && ChainAt(w, Proto(w, w.objects[o].structure), chain)
    ensures n <= |chain|
    decreases n
  {
    if n > 0 {
      FreshChainReaches(w, Proto(w, w.objects[o].structure).value, chain[1..], name, n - 1, holder, offset);
    }
  }

  /** The checks made of a chain listed now pass now. */
  lemma {:induction false} FreshChecksPass(w: World, s: StructureID, chain: seq<StructureID>, checks: seq<Check>)
    requires WorldValid(w) && s in w.structures && ChainAt(w, Proto(w, s), chain) && ChecksFollow(w, s, chain, checks)
    ensures forall k | 0 <= k < |checks| :: checks[k].proto in w.objects && w.objects[checks[k].proto].structure == checks[k].structure
    decreases |checks|
  {
    if checks != [] {
      FreshChecksPass(w, chain[0], chain[1..], checks[1..]);
      forall k | 0 <= k < |checks| ensures checks[k].proto in w.objects && w.objects[checks[k].proto].structure == checks[k].structure {
        if k > 0 { assert checks[k] == checks[1..][k - 1]; }
      }
    }
  }

  /** Object 0 has the prototype 1, which later gets the prototype 2 with a property x. */
  function Early(): World {
    World(map[0 := Instance(0, map[]), 1 := Instance(1, map[]), 2 := Instance(2, map[])],
          map[0 := Structure(map[], Some(1), false), 1 := Structure(map[], None, false), 2 := Structure(map["x" := 0], None, false)])
  }

  function Late(): World {
    Given(Early(), 1, 3, Structure(map[], Some(2), false))
  }

  /** An object takes a new structure. */
  function Given(w: World, o: ObjectId, s: StructureID, structure: Structure): World {
    World(w.objects[o := Instance(s, map[])], w.structures[s := structure])
  }

  lemma GivenEvolves(w: World, o: ObjectId, s: StructureID, structure: Structure)
    requires WorldValid(w) && o in w.objects && w.objects[o].structure <= s && s !in w.structures
    requires structure.prototype.Some? ==> structure.prototype.value in w.objects
    ensures Evolves(w, Given(w, o, s, structure))
  {
  }

  lemma EarlyValid()
    ensures var w := Early();
      && WorldValid(w) && 3 !in w.structures
      && 0 in w.objects && 1 in w.objects && 2 in w.objects && w.objects[0].structure == 0 && w.objects[1].structure == 1
      && 0 in w.structures && !w.structures[0].isDictionary
  {
  }

  /** A chain listed earlier need not reach: a prototype can have been given a prototype since. */
  lemma StaleChainTooShort()
    ensures Evolves(Early(), Late()) && WorldValid(Early()) && WorldValid(Late())
    ensures 0 in Early().objects && 0 in Late().objects && Late().objects[0] == Early().objects[0] && Late().objects[0].structure == 0
    ensures 0 in Early().structures && 0 in Late().structures && !Late().structures[0].isDictionary
    ensures ChainAt(Early(), Some(1), [1]) && Proto(Early(), 0) == Proto(Late(), 0) == Some(1)
    ensures FoundAt(Late(), 0, "x", 2, 2, 0)
  {
    hide Evolves, ChainAt, FoundAt, WorldValid, Early;
    EarlyValid();
    GivenEvolves(Early(), 1, 3, Structure(map[], Some(2), false));
    EvolvesValid(Early(), Late());
    LateFound();
    EarlyEnds();
  }

  lemma LateFound()
    requires WorldValid(Late())
    ensures FoundAt(Late(), 0, "x", 2, 2, 0) && Proto(Late(), 0) == Some(1)
  {
    hide WorldValid;
    var w := Late();
    assert FoundAt(w, 2, "x", 0, 2, 0);
    assert FoundAt(w, 1, "x", 1, 2, 0);
  }

  lemma EarlyEnds()
    requires WorldValid(Early())
    ensures ChainAt(Early(), Some(1), [1]) && Ends(Early(), Some(1), 1) && Proto(Early(), 0) == Some(1)
    ensures forall chain | ChainAt(Early(), Some(1), chain) :: |chain| == 1
  {
    hide WorldValid;
    forall chain | ChainAt(Early(), Some(1), chain) ensures |chain| == 1 {
      assert ChainAt(Early(), None, chain[1..]);
    }
  }

  lemma LateEnds()
    requires WorldValid(Late())
    ensures Ends(Late(), Some(1), 2) && FixedUpTo(Late(), 0, 2)
  {
    hide WorldValid;
    assert Ends(Late(), Some(2), 1) && FixedUpTo(Late(), 2, 0) && FixedUpTo(Late(), 1, 1);
  }

  // --------------------------------------------------------- leaving dictionary mode

  /** A dictionary becomes fixed in place: it keeps its identity. */
  function Fix(w: World, s: StructureID): World
    requires s in w.structures
  {
    w.(structures := w.structures[s := w.structures[s].(isDictionary := false)])
  }

  lemma FixEvolves(w: World, s: StructureID)
    requires WorldValid(w) && s in w.structures && w.structures[s].isDictionary
    ensures Evolves(w, Fix(w, s))
  {
  }

  lemma {:induction false} FixFinds(w: World, s: StructureID, o: ObjectId, name: string, n: nat, holder: ObjectId, offset: nat)
    requires WorldValid(w) && s in w.structures && WorldValid(Fix(w, s)) && FoundAt(w, o, name, n, holder, offset)
    ensures FoundAt(Fix(w, s), o, name, n, holder, offset)
    decreases n
  {
    if n > 0 { FixFinds(w, s, Proto(w, w.objects[o].structure).value, name, n - 1, holder, offset); }
  }

  lemma {:induction false} FixKeepsFixed(w: World, s: StructureID, o: ObjectId, n: nat)
    requires WorldValid(w) && s in w.structures && WorldValid(Fix(w, s)) && FixedUpTo(w, o, n)
    ensures FixedUpTo(Fix(w, s), o, n)
    decreases n
  {
    if n > 0 && Proto(w, w.objects[o].structure).Some? { FixKeepsFixed(w, s, Proto(w, w.objects[o].structure).value, n - 1); }
  }

  lemma {:induction false} FixEnds(w: World, s: StructureID, proto: Option<ObjectId>, n: nat)
    requires WorldValid(w) && s in w.structures && WorldValid(Fix(w, s)) && Ends(w, proto, n)
    ensures Ends(Fix(w, s), proto, n)
    decreases n
  {
    if proto.Some? { FixEnds(w, s, Proto(w, w.objects[proto.value].structure), n - 1); }
  }

  /** `k` prototypes up from `a` is `o`. */
  predicate Ancestor(w: World, a: ObjectId, k: nat, o: ObjectId)
    requires WorldValid(w)
    decreases k
  {
    a in w.objects &&
    if k == 0 then a == o
    else Proto(w, w.objects[a].structure).Some? && Ancestor(w, Proto(w, w.objects[a].structure).value, k - 1, o)
  }

  lemma {:induction false} FixAncestor(w: World, s: StructureID, a: ObjectId, k: nat, o: ObjectId)
    requires WorldValid(w) && s in w.structures && WorldValid(Fix(w, s)) && Ancestor(w, a, k, o)
    ensures Ancestor(Fix(w, s), a, k, o)
    decreases k
  {
    if k > 0 { FixAncestor(w, s, Proto(w, w.objects[a].structure).value, k - 1, o); }
  }

  lemma {:induction false} NextAncestor(w: World, a: ObjectId, k: nat, o: ObjectId)
    requires WorldValid(w) && Ancestor(w, a, k, o) && o in w.objects && Proto(w, w.objects[o].structure).Some?
    ensures Ancestor(w, a, k + 1, Proto(w, w.objects[o].structure).value)
    decreases k
  {
    if k > 0 { NextAncestor(w, Proto(w, w.objects[a].structure).value, k - 1, o); }
  }

  lemma {:induction false} FixedNext(w: World, a: ObjectId, k: nat, o: ObjectId)
    requires WorldValid(w) && Ancestor(w, a, k + 1, o) && FixedUpTo(w, a, k)
    requires o in w.objects && !w.structures[w.objects[o].structure].isDictionary
    ensures FixedUpTo(w, a, k + 1)
    decreases k
  {
    var p := Proto(w, w.objects[a].structure).value;
    if k > 0 { FixedNext(w, p, k - 1, o); }
  }

  /** The walk so far has met no dictionary exactly if it met none before and meets none now. */
  lemma {:induction false} FixedStill(w: World, w': World, a: ObjectId, k: nat, o: ObjectId)
    requires WorldValid(w) && WorldValid(w') && k > 0
    requires FixedUpTo(w, a, k - 1) ==> w' == w
    requires Ancestor(w', a, k, o) && o in w'.objects
    ensures FixedUpTo(w, a, k) ==> FixedUpTo(w, a, k - 1) && !w'.structures[w'.objects[o].structure].isDictionary
    ensures FixedUpTo(w, a, k - 1) && !w'.structures[w'.objects[o].structure].isDictionary ==> FixedUpTo(w, a, k)
  {
    if FixedUpTo(w, a, k) { FixedBefore(w, a, k); FixedAt(w, a, k, o); }
    if FixedUpTo(w, a, k - 1) && !w'.structures[w'.objects[o].structure].isDictionary { FixedNext(w, a, k - 1, o); }
  }

  lemma {:induction false} FixedBefore(w: World, a: ObjectId, k: nat)
    requires WorldValid(w) && k > 0 && FixedUpTo(w, a, k)
    ensures FixedUpTo(w, a, k - 1)
    decreases k
  {
    if k > 1 && Proto(w, w.objects[a].structure).Some? { FixedBefore(w, Proto(w, w.objects[a].structure).value, k - 1); }
  }

  lemma {:induction false} FixedAt(w: World, a: ObjectId, k: nat, o: ObjectId)
    requires WorldValid(w) && FixedUpTo(w, a, k) && Ancestor(w, a, k, o)
    ensures o in w.objects && !w.structures[w.objects[o].structure].isDictionary
    decreases k
  {
    if k > 0 { FixedAt(w, Proto(w, w.objects[a].structure).value, k - 1, o); }
  }

  /** The walk from `a` meets the holder exactly where the property is found. */
  lemma {:induction false} WalkFinds(w: World, a: ObjectId, k: nat, o: ObjectId, name: string, n: nat, holder: ObjectId, offset: nat)
    requires WorldValid(w) && Ancestor(w, a, k, o) && k <= n && FoundAt(w, a, name, n, holder, offset)
    ensures FoundAt(w, o, name, n - k, holder, offset)
    ensures o == holder <==> k == n
    decreases k
  {
    if k > 0 {
      WalkFinds(w, Proto(w, w.objects[a].structure).value, k - 1, o, name, n - 1, holder, offset);
    } else if o == holder {
      HolderOwns(w, a, name, n, holder, offset);
    }
  }

  lemma {:induction false} HolderOwns(w: World, a: ObjectId, name: string, n: nat, holder: ObjectId, offset: nat)
    requires WorldValid(w) && FoundAt(w, a, name, n, holder, offset)
    ensures holder in w.objects && name in Own(w, w.objects[holder].structure)
    decreases n
  {
    if n > 0 { HolderOwns(w, Proto(w, w.objects[a].structure).value, name, n - 1, holder, offset); }
  }

  // ---------------------------------------------------------------- caching

  class AccessCache {
    var world: World
    var cachedChains: map<StructureID, seq<StructureID>>
    ghost var listed: map<StructureID, World>          // the world each chain was listed in

    /** A cached chain was right when it was listed; it may be stale by now. */
    ghost predicate ChainTied(s: StructureID)
      requires s in cachedChains
      reads this
    {
      && WorldValid(world) && s in world.structures && s in listed
      && Evolves(listed[s], world) && ChainAt(listed[s], Proto(world, s), cachedChains[s])
    }

    ghost predicate Valid()
      reads this
    {
      WorldValid(world) && forall s | s in cachedChains :: ChainTied(s)
    }

    constructor (world: World)
      requires WorldValid(world)
      ensures Valid() && this.world == world && cachedChains == map[]
    {
      this.world, cachedChains, listed := world, map[], map[];
    }

    lemma WorldIsValid()
      requires Valid()
      ensures WorldValid(world)
    {
    }

    /** Anything else the program does in between. */
    method Advance(later: World)
      requires Valid() && Evolves(world, later)
      modifies this`world
      ensures Valid() && world == later
    {
      hide ChainAt;
      forall s | s in cachedChains ensures Evolves(listed[s], later) && s in later.structures && Proto(later, s) == Proto(world, s) {
        assert ChainTied(s);
        EvolvesTransitive(listed[s], world, later);
      }
      world := later;
    }

    /** A structure made by adding a property inherits the chain of the one before. */
    method InheritChain(from: StructureID, to: StructureID)
      requires Valid() && from in world.structures && to in world.structures && Proto(world, to) == Proto(world, from)
      modifies this`cachedChains, this`listed
      ensures Valid() && world == old(world)
    {
      hide WorldValid, Evolves, ChainAt;
      if from in cachedChains {
        assert ChainTied(from);
        cachedChains := cachedChains[to := cachedChains[from]];
        listed := listed[to := listed[from]];
        forall s | s in cachedChains ensures ChainTied(s) {
          if s != to { assert old(ChainTied(s)); }
        }
      }
    }

    /** Lists the structures of the prototypes of `s`. */
    method CachePrototypeChain(s: StructureID, ghost n: nat) returns (chain: seq<StructureID>)
      requires Valid() && s in world.structures && Ends(world, Proto(world, s), n)
      modifies this`cachedChains, this`listed
      ensures Valid() && s in cachedChains && cachedChains[s] == chain && ChainAt(world, Proto(world, s), chain)
    {
      hide WorldValid, Evolves, ChainAt, Ends;
      EvolvesReflexive(world);
      chain := ListChain(world, Proto(world, s), n);
      cachedChains := cachedChains[s := chain];
      listed := listed[s := world];
      forall t | t in cachedChains ensures ChainTied(t) {
        if t != s { assert old(ChainTied(t)); }
      }
    }

    /** A prototype met on the way stops being a dictionary; the chain of the base is listed
        afresh then. */
    method FromDictionary(o: ObjectId, base: StructureID)
      requires Valid() && o in world.objects && base in world.structures
      modifies this`world, this`cachedChains
      ensures Valid()
      ensures o in world.objects && !world.structures[world.objects[o].structure].isDictionary
      ensures world == old(world) || world == Fix(old(world), old(world).objects[o].structure)
      ensures Evolves(old(world), world)
      ensures old(world.structures[world.objects[o].structure].isDictionary) ==> cachedChains == old(cachedChains) - {base}
      ensures !old(world.structures[world.objects[o].structure].isDictionary) ==> world == old(world) && cachedChains == old(cachedChains)
    {
      hide Valid, ChainTied, WorldValid, Evolves;
      WorldIsValid();
      StructureHeld(world, o);
      var structure := world.objects[o].structure;
      if world.structures[structure].isDictionary {
        FixEvolves(world, structure);
        Advance(Fix(world, structure));
        DropChain(base);
      } else {
        EvolvesReflexive(world);
      }
    }

    method DropChain(base: StructureID)
      requires Valid()
      modifies this`cachedChains
      ensures Valid() && cachedChains == old(cachedChains) - {base}
    {
      hide WorldValid, Evolves, ChainAt;
      cachedChains := cachedChains - {base};
      forall s | s in cachedChains ensures ChainTied(s) {
        assert old(ChainTied(s));
      }
    }

    /** Counts the prototypes up to the holder of a property, fixing dictionaries. */
    method CountToHolder(base: ObjectId, name: string, holder: ObjectId, offset: nat, ghost n: nat, ghost depth: nat) returns (count: nat)
      requires Valid() && FoundAt(world, base, name, n, holder, offset)
      requires !world.structures[world.objects[base].structure].isDictionary
      requires Ends(world, Proto(world, world.objects[base].structure), depth)
      modifies this`world, this`cachedChains
      ensures Valid() && Evolves(old(world), world) && count == n && world.objects == old(world).objects
      ensures FoundAt(world, base, name, n, holder, offset) && FixedUpTo(world, base, n)
      ensures Ends(world, Proto(world, world.objects[base].structure), depth)
      ensures FixedUpTo(old(world), base, n) ==> world == old(world) && cachedChains == old(cachedChains)
      ensures !FixedUpTo(old(world), base, n) ==> cachedChains == old(cachedChains) - {world.objects[base].structure}
    {
      hide FoundAt, FixedUpTo, Ends, Ancestor, Evolves, WorldValid, ChainTied;
      Departs(world, base, name, n, holder, offset);
      EvolvesReflexive(world);
      var structureID := world.objects[base].structure;
      count := 0;
      var o := base;
      while holder != o
        invariant Valid() && Evolves(old(world), world) && WorldValid(world) && world.objects == old(world).objects && structureID in world.structures
        invariant o in world.objects && Ancestor(world, base, count, o) && count <= n && FixedUpTo(world, base, count)
        invariant FoundAt(world, base, name, n, holder, offset)
        invariant Ends(world, Proto(world, structureID), depth)
        invariant FixedUpTo(old(world), base, count) ==> world == old(world) && cachedChains == old(cachedChains)
        invariant !FixedUpTo(old(world), base, count) ==> cachedChains == old(cachedChains) - {structureID}
        decreases n - count
      {
        WalkFinds(world, base, count, o, name, n, holder, offset);
        StepUp(world, o, name, n - count, holder, offset);
        NextAncestor(world, base, count, o);
        var v := Proto(world, world.objects[o].structure).value;
        ghost var before, was := world, world.objects[v].structure;
        FromDictionary(v, structureID);
        AfterFix(before, world, was, base, count, v, name, n, holder, offset, structureID, depth);
        EvolvesTransitive(old(world), before, world);
        o := v;
        count := count + 1;
        FixedNext(world, base, count - 1, o);
        FixedStill(old(world), before, base, count, o);
      }
      WalkFinds(world, base, count, o, name, n, holder, offset);
    }

    /** Makes the stub that will answer the access from now on: none for a dictionary, and
        none when a stale chain runs out before the holder. */
    method TryCacheGetByID(base: ObjectId, name: string, slotBase: ObjectId, offset: nat, ghost n: nat, ghost depth: nat) returns (stub: Option<Stub>)
      requires Valid() && FoundAt(world, base, name, n, slotBase, offset)
      requires Ends(world, Proto(world, world.objects[base].structure), depth)
      modifies this
      ensures Valid() && Evolves(old(world), world)
      ensures stub.Some? ==> Sound(world, stub.value, name)
      ensures var s := old(world).objects[base].structure;
        && (stub.None? <==>
              || old(world).structures[s].isDictionary
              || (n > 1 && FixedUpTo(old(world), base, n) && s in old(cachedChains) && |old(cachedChains)[s]| < n))
        && (stub.Some? && (n <= 1 || (s in cachedChains && ChainAt(world, Proto(world, s), cachedChains[s]))) ==> Hits(world, stub.value, base))
    {
      hide FoundAt, FixedUpTo, Ends, Evolves, WorldValid, ChainTied, Sound, ChecksFollow, ChainAt;
      BaseIsValid(base, name, n, slotBase, offset);
      EvolvesReflexive(world);
      var structureID := world.objects[base].structure;
      if world.structures[structureID].isDictionary {
        return None;
      }
      if slotBase == base {
        SelfFound(world, base, name, n, slotBase, offset);
        SelfStubSound(world, base, name, offset);
        return Some(Stub(structureID, [], None, offset));
      }
      var count := CountToHolder(base, name, slotBase, offset, n, depth);
      BaseIsValid(base, name, n, slotBase, offset);
      NotSelf(world, base, name, n, slotBase, offset);
      NearHolder(world, base, name, n, slotBase, offset);
      if Some(slotBase) == Proto(world, structureID) {
        var check := Check(slotBase, world.objects[slotBase].structure);
        ProtoStubSound(world, base, name, n, slotBase, offset);
        return Some(Stub(structureID, [check], Some(slotBase), offset));
      }
      var chain;
      if structureID in cachedChains {
        chain := cachedChains[structureID];
      } else {
        chain := CachePrototypeChain(structureID, depth);
        FreshChainReaches(world, base, chain, name, n, slotBase, offset);
      }
      TiedChain(structureID);
      var checks := CompileGetByIdChain(world, structureID, chain, count, listed[structureID]);
      if checks.Some? {
        ChainLists(listed[structureID], Proto(world, structureID), chain);
        if ChainAt(world, Proto(world, structureID), chain) { FreshChecksPass(world, structureID, chain, checks.value); }
        ChainStubSound(listed[structureID], world, structureID, chain, checks.value, base, name, n, slotBase, offset);
        return Some(Stub(structureID, checks.value, Some(checks.value[count - 1].proto), offset));
      }
      return None;
    }

    lemma BaseIsValid(base: ObjectId, name: string, n: nat, holder: ObjectId, offset: nat)
      requires Valid() && FoundAt(world, base, name, n, holder, offset)
      ensures WorldValid(world) && base in world.objects && world.objects[base].structure in world.structures
      ensures holder in world.objects
    {
      HolderOwns(world, base, name, n, holder, offset);
    }

    lemma TiedChain(s: StructureID)
      requires Valid() && s in cachedChains
      ensures s in world.structures && s in listed && Evolves(listed[s], world) && WorldValid(listed[s])
      ensures ChainAt(listed[s], Proto(world, s), cachedChains[s])
    {
      assert ChainTied(s);
    }
  }

  lemma SelfFound(w: World, a: ObjectId, name: string, n: nat, holder: ObjectId, offset: nat)
    requires WorldValid(w) && FoundAt(w, a, name, n, holder, offset) && holder == a
    ensures n == 0
  {
    HolderOwns(w, a, name, n, holder, offset);
  }

  lemma NotSelf(w: World, a: ObjectId, name: string, n: nat, holder: ObjectId, offset: nat)
    requires WorldValid(w) && FoundAt(w, a, name, n, holder, offset) && holder != a
    ensures n > 0
  {
  }

  /** One prototype up: the chain is that prototype's own structure. */
  lemma ProtoStubSound(w: World, a: ObjectId, name: string, n: nat, holder: ObjectId, offset: nat)
    requires WorldValid(w) && FoundAt(w, a, name, n, holder, offset) && n > 0 && FixedUpTo(w, a, n)
    requires holder in w.objects && Some(holder) == Proto(w, w.objects[a].structure)
    ensures Sound(w, Stub(w.objects[a].structure, [Check(holder, w.objects[holder].structure)], Some(holder), offset), name)
  {
    hide Sound, Evolves;
    EvolvesReflexive(w);
    NearHolder(w, a, name, n, holder, offset);
    var s, structure := w.objects[a].structure, w.objects[holder].structure;
    assert Lists(w, Proto(w, s), [structure]);
    assert ChecksFollow(w, s, [structure], [Check(holder, structure)]);
    ChainStubSound(w, w, s, [structure], [Check(holder, structure)], a, name, n, holder, offset);
  }

  /** The holder is the nearest prototype exactly when the property is found there. */
  lemma NearHolder(w: World, a: ObjectId, name: string, n: nat, holder: ObjectId, offset: nat)
    requires WorldValid(w) && FoundAt(w, a, name, n, holder, offset) && n > 0
    ensures Some(holder) == Proto(w, w.objects[a].structure) <==> n == 1
  {
    var p := Proto(w, w.objects[a].structure).value;
    if holder == p { SelfFound(w, p, name, n - 1, holder, offset); }
  }

  lemma Departs(w: World, o: ObjectId, name: string, n: nat, holder: ObjectId, offset: nat)
    requires WorldValid(w) && FoundAt(w, o, name, n, holder, offset) && !w.structures[w.objects[o].structure].isDictionary
    ensures o in w.objects && w.objects[o].structure in w.structures && Ancestor(w, o, 0, o) && FixedUpTo(w, o, 0)
  {
  }

  lemma EvolvesReflexive(w: World)
    requires WorldValid(w)
    ensures Evolves(w, w)
  {
  }

  lemma StepUp(w: World, o: ObjectId, name: string, n: nat, holder: ObjectId, offset: nat)
    requires WorldValid(w) && FoundAt(w, o, name, n, holder, offset) && n > 0
    ensures o in w.objects && w.objects[o].structure in w.structures && Proto(w, w.objects[o].structure).Some?
    ensures var p := Proto(w, w.objects[o].structure).value; p in w.objects && w.objects[p].structure in w.structures
  {
  }

  /** Fixing a dictionary leaves the walk as it was. */
  lemma AfterFix(w: World, w': World, s: StructureID, a: ObjectId, k: nat, o: ObjectId, name: string, n: nat, holder: ObjectId, offset: nat,
                 base: StructureID, depth: nat)
    requires WorldValid(w) && WorldValid(w') && s in w.structures && (w' == w || w' == Fix(w, s))
    requires FoundAt(w, a, name, n, holder, offset) && FixedUpTo(w, a, k) && Ancestor(w, a, k + 1, o)
    requires base in w.structures && Ends(w, Proto(w, base), depth)
    ensures w'.objects == w.objects && base in w'.structures
    ensures FoundAt(w', a, name, n, holder, offset) && FixedUpTo(w', a, k) && Ancestor(w', a, k + 1, o) && Ends(w', Proto(w', base), depth)
  {
    hide FoundAt, FixedUpTo, Ancestor, Ends, WorldValid;
    if w' != w {
      FixFinds(w, s, a, name, n, holder, offset);
      FixKeepsFixed(w, s, a, k);
      FixAncestor(w, s, a, k + 1, o);
      FixEnds(w, s, Proto(w, base), depth);
    }
  }

  method ListChain(w: World, proto: Option<ObjectId>, ghost depth: nat) returns (chain: seq<StructureID>)
    requires WorldValid(w) && Ends(w, proto, depth)
    ensures ChainAt(w, proto, chain)
  {
    chain := [];
    var p := proto;
    ghost var n := depth;
    assert forall rest: seq<StructureID> :: [] + rest == rest;
    while p.Some?
      invariant Ends(w, p, n)
      invariant forall rest | ChainAt(w, p, rest) :: ChainAt(w, proto, chain + rest)
      decreases n
    {
      var structure := w.objects[p.value].structure;
      forall rest | ChainAt(w, Proto(w, structure), rest) ensures ChainAt(w, proto, (chain + [structure]) + rest) {
        assert ([structure] + rest)[1..] == rest;
        assert ChainAt(w, p, [structure] + rest);
        assert (chain + [structure]) + rest == chain + ([structure] + rest);
      }
      chain := chain + [structure];
      p := Proto(w, structure);
      n := n - 1;
    }
    assert ChainAt(w, p, []);
    assert chain + [] == chain;
  }

  /** A check planted after others: what follows it follows them. */
  lemma NextCheck(w: World, structureID: StructureID, s: StructureID, chain: seq<StructureID>, left: seq<StructureID>, planted: seq<Check>, check: Check)
    requires s in w.structures && left != [] && Proto(w, s) == Some(check.proto) && check.structure == left[0]
    requires forall rest | ChecksFollow(w, s, left, rest) :: ChecksFollow(w, structureID, chain, planted + rest)
    ensures forall rest | ChecksFollow(w, left[0], left[1..], rest) :: ChecksFollow(w, structureID, chain, (planted + [check]) + rest)
  {
    forall rest | ChecksFollow(w, left[0], left[1..], rest) ensures ChecksFollow(w, structureID, chain, (planted + [check]) + rest) {
      assert ([check] + rest)[1..] == rest;
      assert ChecksFollow(w, s, left, [check] + rest);
      assert (planted + [check]) + rest == planted + ([check] + rest);
    }
  }

  /** The structure checks of a stub for a property `count` prototypes up.  The prototypes
      come from the chain's structures, not from the objects as they are now. */
  method CompileGetByIdChain(w: World, structureID: StructureID, chain: seq<StructureID>, count: nat, ghost w0: World)
    returns (checks: Option<seq<Check>>)
    requires Evolves(w0, w) && structureID in w.structures && ChainAt(w0, Proto(w, structureID), chain)
    ensures checks.Some? <==> count <= |chain|
    ensures checks.Some? ==> |checks.value| == count && ChecksFollow(w, structureID, chain, checks.value)
  {
    hide Evolves, WorldValid;
    EvolvesValid(w0, w);
    var planted: seq<Check> := [];
    var currStructureID := structureID;
    assert forall rest: seq<Check> :: planted + rest == rest;
    for i := 0 to count
      invariant |planted| == i <= |chain| && currStructureID in w.structures
      invariant ChainAt(w0, Proto(w, currStructureID), chain[i..])
      invariant forall rest | ChecksFollow(w, currStructureID, chain[i..], rest) :: ChecksFollow(w, structureID, chain, planted + rest)
    {
      var protoObject := Proto(w, currStructureID);
      if protoObject.None? {
        return None; // walks off the chain
      }
      var check := Check(protoObject.value, chain[i]);
      StructureHeld(w0, protoObject.value);
      PrototypeKept(w0, w, chain[i]);
      assert chain[i..][0] == chain[i] && chain[i..][1..] == chain[i + 1..];
      NextCheck(w, structureID, currStructureID, chain, chain[i..], planted, check);
      planted := planted + [check];
      currStructureID := chain[i];
    }
    assert ChecksFollow(w, currStructureID, chain[count..], []);
    assert planted + [] == planted;
    return Some(planted);
  }

  /** The history that leaves a chain too short: listed, outdated, asked for. */
  method StaleHistory() returns (chain: seq<StructureID>, stub: Option<Stub>)
    ensures FoundAt(Late(), 0, "x", 2, 2, 0) && !Late().structures[Late().objects[0].structure].isDictionary
    ensures |chain| == 1 && stub == None
  {
    hide Evolves, Ends, FixedUpTo, ChainAt, FoundAt, Early, Late, WorldValid, Sound, AccessCache.Valid, Hits;
    StaleChainTooShort();
    EarlyEnds();
    LateEnds();
    var cache := new AccessCache(Early());
    chain := cache.CachePrototypeChain(0, 1);
    cache.Advance(Late());
    stub := cache.TryCacheGetByID(0, "x", 2, 0, 2, 2);
  }
}
