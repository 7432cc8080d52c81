/** The two passes of the JIT and the stream of slow-case entries between them.

    The main pass plants jumps out of line, each noted with the index of its opcode; the
    slow pass walks the notes and links each jump to out-of-line code.  How many notes an
    opcode plants and how many one visit of its slow case consumes is decided in two
    different places; the invariant is that they agree. */
module SlowCases {
  import opened Bytecode

  datatype OpcodeID =
    | OpConvertThis | OpAdd | OpSub | OpMul | OpNegate | OpMod | OpLshift | OpRshift | OpBitAnd | OpBitOr | OpBitXor | OpBitNot
    | OpPreInc | OpPreDec | OpPostInc | OpPostDec | OpToJSNumber
    | OpEq | OpNeq | OpStrictEq | OpNStrictEq | OpNot | OpInstanceOf
    | OpLoopIfLess | OpLoopIfLessEq | OpLoopIfTrue | OpJNLess | OpJTrue | OpJFalse
    | OpGetById | OpPutById | OpGetByVal | OpPutByVal
    | OpCall | OpCallEval | OpConstruct
    | OpOther(width: nat)

  datatype ResultType = ResultType(reusable: bool, definitelyIsNumber: bool, mightBeNumber: bool)

  /** `src1` and `src2` are the values of constant immediate numeric operands. */
  datatype Ins = Ins(op: OpcodeID, src1: Option<int>, src2: Option<int>, first: ResultType, second: ResultType)

  datatype Word = Opc(ins: Ins) | Operand

  /** `from` is the address of the jump. */
  datatype SlowCaseEntry = SlowCaseEntry(from: nat, to: nat)

  // ------------------------------------------------------------ the stream

  function Width(op: OpcodeID): (w: nat)
    ensures w > 0
  {
    match op
    case OpConvertThis => 2
    case OpAdd => 5 case OpSub => 5 case OpMul => 5
    case OpNegate => 4 case OpMod => 4 case OpLshift => 4 case OpRshift => 4
    case OpBitAnd => 5 case OpBitOr => 5 case OpBitXor => 5
    case OpBitNot => 3
    case OpPreInc => 2 case OpPreDec => 2
    case OpPostInc => 3 case OpPostDec => 3 case OpToJSNumber => 3
    case OpEq => 4 case OpNeq => 4 case OpStrictEq => 4 case OpNStrictEq => 4
    case OpNot => 3
    case OpInstanceOf => 5
    case OpLoopIfLess => 4 case OpLoopIfLessEq => 4 case OpJNLess => 4
    case OpLoopIfTrue => 3 case OpJTrue => 3 case OpJFalse => 3
    case OpGetById => 8 case OpPutById => 8
    case OpGetByVal => 4 case OpPutByVal => 4
    case OpCall => 7 case OpCallEval => 7 case OpConstruct => 7
    case OpOther(width) => 1 + width
  }

  function Start(code: seq<Ins>, k: nat): nat
    requires k <= |code|
  {
    if k == 0 then 0 else Start(code, k - 1) + Width(code[k - 1].op)
  }

  ghost predicate Flattened(words: seq<Word>, code: seq<Ins>) {
    |words| == Start(code, |code|) && forall k | 0 <= k < |code| :: OpcodeAt(words, code, k)
  }

  ghost predicate OpcodeAt(words: seq<Word>, code: seq<Ins>, k: nat)
    requires k < |code|
  {
    Start(code, k) < |words| && words[Start(code, k)] == Opc(code[k])
  }

  predicate IsPropertyAccess(op: OpcodeID) { op.OpGetById? || op.OpPutById? }

  predicate IsCall(op: OpcodeID) { op.OpCall? || op.OpCallEval? || op.OpConstruct? }

  predicate IsArithmetic(op: OpcodeID) {
    || op.OpAdd? || op.OpSub? || op.OpMul? || op.OpNegate? || op.OpMod?
    || op.OpPreInc? || op.OpPreDec? || op.OpPostInc? || op.OpPostDec? || op.OpToJSNumber?
  }

  predicate IsBitwise(op: OpcodeID) {
    || op.OpLshift? || op.OpRshift? || op.OpBitAnd? || op.OpBitOr? || op.OpBitXor? || op.OpBitNot?
    || op.OpEq? || op.OpNeq? || op.OpStrictEq? || op.OpNStrictEq? || op.OpNot?
  }

  predicate IsJump(op: OpcodeID) {
    || op.OpLoopIfLess? || op.OpLoopIfLessEq? || op.OpJNLess? || op.OpLoopIfTrue?
    || op.OpJTrue? || op.OpJFalse? || op.OpConvertThis? || op.OpInstanceOf?
  }

  predicate IsAccess(op: OpcodeID) {
    || op.OpGetById? || op.OpPutById? || op.OpGetByVal? || op.OpPutByVal?
    || op.OpCall? || op.OpCallEval? || op.OpConstruct?
  }

  lemma Kinds(op: OpcodeID)
    ensures IsArithmetic(op) || IsBitwise(op) || IsJump(op) || IsAccess(op) || op.OpOther?
    ensures IsPropertyAccess(op) || IsCall(op) ==> IsAccess(op)
    ensures IsAccess(op) ==> !IsArithmetic(op) && !IsBitwise(op) && !IsJump(op) && !op.OpOther?
  {
  }

  /** What the runtime finds again and patches. */
  datatype Site = Access | CallSite

  predicate Is(site: Site, op: OpcodeID) {
    if site.Access? then IsPropertyAccess(op) else IsCall(op)
  }

  /** The sites of a kind among the first `k` instructions, by opcode index. */
  function Sites(code: seq<Ins>, site: Site, k: nat): seq<nat>
    requires k <= |code|
  {
    if k == 0 then []
    else Sites(code, site, k - 1) + if Is(site, code[k - 1].op) then [Start(code, k - 1)] else []
  }

  /** How many sites of a kind come before instruction `k`. */
  function Rank(code: seq<Ins>, site: Site, k: nat): nat
    requires k <= |code|
  {
    |Sites(code, site, k)|
  }

  // ------------------------------------------------- planted and consumed

  predicate PositiveConstant(c: Option<int>) { c.Some? && c.value > 0 }

  /** Is either operand handled as a double in place? */
  predicate InPlace(ins: Ins, sse2: bool) { (ins.first.reusable || ins.second.reusable) && sse2 }

  function ArithPlanted(ins: Ins, sse2: bool): nat {
    (if InPlace(ins, sse2) then
       (if ins.first.definitelyIsNumber then 0 else 2) + (if ins.second.definitelyIsNumber then 0 else 2)
     else 0)
    + if ins.op.OpMul? then 3 else 2
  }

  /** How many notes an instruction leaves. */
  function Planted(ins: Ins, sse2: bool): nat {
    match ins.op
    case OpAdd =>
      if ins.src1.Some? || ins.src2.Some? then 2
      else if ins.first.mightBeNumber && ins.second.mightBeNumber then ArithPlanted(ins, sse2)
      else 0
    case OpSub => ArithPlanted(ins, sse2)
    case OpMul => if PositiveConstant(ins.src1) || PositiveConstant(ins.src2) then 2 else ArithPlanted(ins, sse2)
    case OpNegate => if !sse2 then 0 else if ins.first.definitelyIsNumber then 2 else 4
    case OpMod => 3 case OpLshift => 3 case OpInstanceOf => 3
    case OpGetByVal => 4
    case OpPutByVal => 5
    case OpLoopIfLess => if ins.src2.Some? then 1 else 2
    case OpLoopIfLessEq => if ins.src2.Some? then 1 else 2
    case OpJNLess => if ins.src2.Some? then 1 else 2
    case OpConvertThis => 2 case OpRshift => 2
    case OpPreInc => 2 case OpPreDec => 2 case OpPostInc => 2 case OpPostDec => 2 case OpToJSNumber => 2
    case OpStrictEq => 2 case OpNStrictEq => 2
    case OpGetById => 2 case OpPutById => 2
    case OpOther(_) => 0
    case _ => 1
  }

  /** One visit of the slow case consumes one note or all of them. */
  predicate OneByOne(ins: Ins) {
    || ins.op.OpNegate? || ins.op.OpInstanceOf? || ins.op.OpStrictEq? || ins.op.OpNStrictEq? || ins.op.OpToJSNumber?
    || (ins.op.OpMul? && (PositiveConstant(ins.src1) || PositiveConstant(ins.src2)))
  }

  function Consumed(ins: Ins, sse2: bool): nat {
    if OneByOne(ins) then 1 else Planted(ins, sse2)
  }

  /** The notes left by the first `k` instructions. */
  function Before(code: seq<Ins>, sse2: bool, k: nat): nat
    requires k <= |code|
  {
    if k == 0 then 0 else Before(code, sse2, k - 1) + Planted(code[k - 1], sse2)
  }

  /** The notes of instruction `k` stand at its place and name it. */
  ghost predicate NotesOf(entries: seq<SlowCaseEntry>, code: seq<Ins>, sse2: bool, k: nat)
    requires k < |code|
  {
    && Before(code, sse2, k + 1) <= |entries|
    && forall q | Before(code, sse2, k) <= q < Before(code, sse2, k + 1) :: entries[q].to == Start(code, k)
  }

  predicate JumpsOrdered(entries: seq<SlowCaseEntry>, size: nat) {
    && (forall p, q | 0 <= p < q < |entries| :: entries[p].from < entries[q].from)
    && (forall q | 0 <= q < |entries| :: entries[q].from < size)
  }

  /** `n` notes for the opcode at `i` have been added. */
  ghost predicate Added(before: seq<SlowCaseEntry>, after: seq<SlowCaseEntry>, i: nat, n: nat) {
    && |after| == |before| + n
    && after[..|before|] == before
    && forall q | |before| <= q < |after| :: after[q].to == i
  }

  lemma {:induction false} StartMonotone(code: seq<Ins>, j: nat, k: nat)
    requires j < k <= |code|
    ensures Start(code, j) + Width(code[j].op) <= Start(code, k)
  {
    if j + 1 < k { StartMonotone(code, j, k - 1); }
  }

  lemma {:induction false} BeforeMonotone(code: seq<Ins>, sse2: bool, j: nat, k: nat)
    requires j <= k <= |code|
    ensures Before(code, sse2, j) <= Before(code, sse2, k)
  {
    if j < k { BeforeMonotone(code, sse2, j, k - 1); }
  }

  lemma {:induction false} SitesPrefix(code: seq<Ins>, site: Site, j: nat, k: nat)
    requires j <= k <= |code|
    ensures Sites(code, site, j) <= Sites(code, site, k)
  {
    if j < k { SitesPrefix(code, site, j, k - 1); }
  }

  /** The next site is where the table says. */
  lemma NextSite(code: seq<Ins>, site: Site, k: nat)
    requires k < |code| && Is(site, code[k].op)
    ensures var n := Rank(code, site, k); n < Rank(code, site, |code|) && Sites(code, site, |code|)[n] == Start(code, k)
  {
    SitesPrefix(code, site, k + 1, |code|);
    assert Sites(code, site, k + 1)[Rank(code, site, k)] == Start(code, k);
  }

  lemma RankGrows(code: seq<Ins>, site: Site, j: nat, k: nat)
    requires j < k <= |code| && Is(site, code[j].op)
    ensures Rank(code, site, j) < Rank(code, site, k)
  {
    SitesPrefix(code, site, j + 1, k);
  }

  // ------------------------------------------------------------- places

  /** At a site one place is noted in the code assembled for it; elsewhere none. */
  predicate Noted(before: seq<nat>, after: seq<nat>, here: bool, from: nat, to: nat) {
    if here then |after| == |before| + 1 && after[..|before|] == before && from < after[|before|] < to
    else after == before
  }

  /** Two places are noted, in this order. */
  predicate BothNoted(first: seq<nat>, second: seq<nat>, first': seq<nat>, second': seq<nat>, here: bool, from: nat, to: nat) {
    && Noted(first, first', here, from, to) && Noted(second, second', here, from, to)
    && (here ==> first'[|first|] < second'[|second|])
  }

  /** What is patched later ends at fixed distances from the start of the hot path. */
  const RepatchOffsetStructureID := 19
  const RepatchOffsetBranchToSlowCase := 25
  const RepatchOffsetPropertyMapOffset := 34
  const RepatchOffsetOpCallCall := 6

  /** The code of a property access that is patched: the end of the structure compared
      with, of the branch to the slow case, and of the offset loaded from or stored to. */
  datatype Patchable = Patchable(structureID: nat, branch: nat, offset: nat)

  ghost predicate AtOffsets(patchable: Patchable, hotPathBegin: nat) {
    && patchable.structureID == hotPathBegin + RepatchOffsetStructureID
    && patchable.branch == hotPathBegin + RepatchOffsetBranchToSlowCase
    && patchable.offset == hotPathBegin + RepatchOffsetPropertyMapOffset
  }

  /** At a property access, the start of its hot path and what follows it are noted. */
  ghost predicate PathNoted(paths: seq<nat>, patchables: seq<Patchable>, paths': seq<nat>, patchables': seq<Patchable>,
                            here: bool, from: nat, to: nat)
  {
    && Noted(paths, paths', here, from, to)
    && if here then
         |patchables'| == |patchables| + 1 && patchables'[..|patchables|] == patchables
         && AtOffsets(patchables'[|patchables|], paths'[|paths|]) && patchables'[|patchables|].offset < to
       else patchables' == patchables
  }

  /** The code of a call that is patched: the end of the function compared with, which is
      where the record points, and of the branch to the slow case. */
  datatype Linkable = Linkable(function_: nat, branch: nat)

  ghost predicate LinkedAt(linkable: Linkable, hotPathBegin: nat) {
    linkable.function_ == hotPathBegin && linkable.branch == hotPathBegin + RepatchOffsetOpCallCall
  }

  ghost predicate CallNoted(begins: seq<nat>, others: seq<nat>, linkables: seq<Linkable>,
                            begins': seq<nat>, others': seq<nat>, linkables': seq<Linkable>, here: bool, from: nat, to: nat)
  {
    && BothNoted(begins, others, begins', others', here, from, to)
    && if here then
         && |linkables'| == |linkables| + 1 && linkables'[..|linkables|] == linkables
         && LinkedAt(linkables'[|linkables|], begins'[|begins|]) && linkables'[|linkables|].branch < others'[|others|]
       else linkables' == linkables
  }

  ghost predicate PathsFollowed(paths: seq<nat>, patchables: seq<Patchable>) {
    |patchables| == |paths| && forall n | 0 <= n < |paths| :: AtOffsets(patchables[n], paths[n])
  }

  function Offsets(patchables: seq<Patchable>): (r: seq<nat>)
    ensures |r| == |patchables| && forall n | 0 <= n < |r| :: r[n] == patchables[n].offset
  {
    seq(|patchables|, n requires 0 <= n < |patchables| => patchables[n].offset)
  }

  /** The start of the hot path and the last that is patched are in the code of the access. */
  ghost predicate AccessesPlaced(code: seq<Ins>, labels: map<nat, nat>, paths: seq<nat>, patchables: seq<Patchable>, k: nat, size: nat)
    requires k <= |code|
  {
    && AllPlaced(code, Access, labels, paths, k, size) && AllPlaced(code, Access, labels, Offsets(patchables), k, size)
    && PathsFollowed(paths, patchables)
  }

  ghost predicate CallsPlaced(code: seq<Ins>, labels: map<nat, nat>, begins: seq<nat>, others: seq<nat>, linkables: seq<Linkable>, k: nat, size: nat)
    requires k <= |code|
  {
    && AllPlaced(code, CallSite, labels, begins, k, size) && AllPlaced(code, CallSite, labels, others, k, size)
    && |linkables| == |begins| && forall n | 0 <= n < |begins| :: LinkedAt(linkables[n], begins[n]) && linkables[n].branch < others[n]
  }

  /** The address of the code after that of instruction `j`, when `k` are assembled. */
  function CodeEnd(code: seq<Ins>, labels: map<nat, nat>, j: nat, k: nat, size: nat): nat
    requires j < k <= |code|
    requires j + 1 < k ==> Start(code, j + 1) in labels
  {
    if j + 1 < k then labels[Start(code, j + 1)] else size
  }

  /** The place noted for the site at instruction `j` lies in the code of that instruction. */
  ghost predicate PlaceOf(code: seq<Ins>, site: Site, labels: map<nat, nat>, places: seq<nat>, j: nat, k: nat, size: nat)
    requires j < k <= |code|
  {
    && Rank(code, site, j) < |places| && Start(code, j) in labels && (j + 1 < k ==> Start(code, j + 1) in labels)
    && labels[Start(code, j)] < places[Rank(code, site, j)] < CodeEnd(code, labels, j, k, size)
  }

  ghost predicate AllPlaced(code: seq<Ins>, site: Site, labels: map<nat, nat>, places: seq<nat>, k: nat, size: nat)
    requires k <= |code|
  {
    && |places| == Rank(code, site, k)
    && forall j | 0 <= j < k && Is(site, code[j].op) :: PlaceOf(code, site, labels, places, j, k, size)
  }

  lemma PlaceStays(code: seq<Ins>, site: Site, labels: map<nat, nat>, places: seq<nat>, j: nat, k: nat, size: nat, places': seq<nat>, size': nat)
    requires j < k < |code| && PlaceOf(code, site, labels, places, j, k, size) && places <= places'
    ensures PlaceOf(code, site, labels[Start(code, k) := size], places', j, k + 1, size')
  {
    hide Sites, Width;
    StartMonotone(code, j, k);
    if j + 1 < k { StartMonotone(code, j + 1, k); }
  }

  /** One more instruction. */
  lemma PlacesKept(code: seq<Ins>, site: Site, labels: map<nat, nat>, places: seq<nat>, k: nat, size: nat, places': seq<nat>, size': nat)
    requires k < |code| && AllPlaced(code, site, labels, places, k, size)
    requires Noted(places, places', Is(site, code[k].op), size, size')
    ensures AllPlaced(code, site, labels[Start(code, k) := size], places', k + 1, size')
  {
    hide Is, Start;
    var labels' := labels[Start(code, k) := size];
    forall j | 0 <= j < k + 1 && Is(site, code[j].op) ensures PlaceOf(code, site, labels', places', j, k + 1, size') {
      if j < k { PlaceStays(code, site, labels, places, j, k, size, places', size'); }
    }
  }

  lemma AccessesKept(code: seq<Ins>, labels: map<nat, nat>, paths: seq<nat>, patchables: seq<Patchable>, k: nat, size: nat,
                     paths': seq<nat>, patchables': seq<Patchable>, size': nat)
    requires k < |code| && AccessesPlaced(code, labels, paths, patchables, k, size)
    requires PathNoted(paths, patchables, paths', patchables', IsPropertyAccess(code[k].op), size, size')
    ensures AccessesPlaced(code, labels[Start(code, k) := size], paths', patchables', k + 1, size')
  {
    hide IsPropertyAccess, AllPlaced, Start;
    assert Is(Access, code[k].op) == IsPropertyAccess(code[k].op);
    assert Offsets(patchables')[..|patchables|] == Offsets(patchables);
    PlacesKept(code, Access, labels, paths, k, size, paths', size');
    PlacesKept(code, Access, labels, Offsets(patchables), k, size, Offsets(patchables'), size');
    assert forall n | 0 <= n < |paths| :: paths'[n] == paths'[..|paths|][n] && patchables'[n] == patchables'[..|patchables|][n];
  }

  lemma CallsCounted(code: seq<Ins>, labels: map<nat, nat>, begins: seq<nat>, others: seq<nat>, linkables: seq<Linkable>, k: nat, size: nat)
    requires k <= |code| && CallsPlaced(code, labels, begins, others, linkables, k, size)
    ensures |begins| == |others| == |linkables|
  {
  }

  lemma CallsKept(code: seq<Ins>, labels: map<nat, nat>, begins: seq<nat>, others: seq<nat>, linkables: seq<Linkable>, k: nat, size: nat,
                  begins': seq<nat>, others': seq<nat>, linkables': seq<Linkable>, size': nat)
    requires k < |code| && CallsPlaced(code, labels, begins, others, linkables, k, size)
    requires CallNoted(begins, others, linkables, begins', others', linkables', IsCall(code[k].op), size, size')
    ensures CallsPlaced(code, labels[Start(code, k) := size], begins', others', linkables', k + 1, size')
  {
    hide IsCall, Start, AllPlaced;
    assert Is(CallSite, code[k].op) == IsCall(code[k].op);
    PlacesKept(code, CallSite, labels, begins, k, size, begins', size');
    PlacesKept(code, CallSite, labels, others, k, size, others', size');
    CallsCounted(code, labels, begins, others, linkables, k, size);
    assert forall n | 0 <= n < |begins| ::
      begins'[n] == begins'[..|begins|][n] && others'[n] == others'[..|others|][n] && linkables'[n] == linkables'[..|linkables|][n];
  }

  lemma OtherPlantsNothing(ins: Ins, sse2: bool)
    ensures ins.op.OpOther? ==> Planted(ins, sse2) == 0
    ensures IsAccess(ins.op) || IsJump(ins.op) || IsBitwise(ins.op) ==> Planted(ins, sse2) > 0
    ensures Planted(ins, sse2) > 0 ==> 0 < Consumed(ins, sse2) <= Planted(ins, sse2)
  {
  }

  lemma OpcodeFound(words: seq<Word>, code: seq<Ins>, k: nat)
    requires Flattened(words, code) && k < |code|
    ensures Start(code, k) < |words| && words[Start(code, k)] == Opc(code[k])
  {
    assert OpcodeAt(words, code, k);
  }

  /** Instructions that leave no note are neither property accesses nor calls. */
  lemma {:induction false} SkipSilent(code: seq<Ins>, sse2: bool, k: nat, q: nat) returns (next: nat)
    requires k <= |code| && Before(code, sse2, k) == q <= Before(code, sse2, |code|)
    ensures k <= next <= |code| && Before(code, sse2, next) == q
    ensures forall site :: Sites(code, site, next) == Sites(code, site, k)
    ensures next < |code| ==> Planted(code[next], sse2) > 0
    ensures forall j | k <= j < next :: Planted(code[j], sse2) == 0
    decreases |code| - k
  {
    hide Planted, IsAccess;
    next := k;
    if k < |code| && Planted(code[k], sse2) == 0 {
      OtherPlantsNothing(code[k], sse2);
      Kinds(code[k].op);
      next := SkipSilent(code, sse2, k + 1, q);
    }
  }

  /** The notes of earlier instructions are not disturbed. */
  lemma NotesKept(before: seq<SlowCaseEntry>, after: seq<SlowCaseEntry>, code: seq<Ins>, sse2: bool, k: nat)
    requires k < |code| && |before| == Before(code, sse2, k)
    requires Added(before, after, Start(code, k), Planted(code[k], sse2))
    requires forall j | 0 <= j < k :: NotesOf(before, code, sse2, j)
    ensures |after| == Before(code, sse2, k + 1)
    ensures forall j | 0 <= j < k + 1 :: NotesOf(after, code, sse2, j)
  {
    hide Planted;
    forall j | 0 <= j < k + 1 ensures NotesOf(after, code, sse2, j) {
      BeforeMonotone(code, sse2, j + 1, k + 1);
      if j < k {
        assert NotesOf(before, code, sse2, j);
        assert forall q | 0 <= q < |before| :: after[q] == after[..|before|][q];
      }
    }
  }

  /** Addresses in code of `size` bytes, in increasing order. */
  predicate Increasing(locations: seq<nat>, size: nat) {
    && (forall p, q | 0 <= p < q < |locations| :: locations[p] < locations[q])
    && (forall p | 0 <= p < |locations| :: locations[p] < size)
  }

  lemma StillIncreasing(before: seq<nat>, size: nat, after: seq<nat>, size': nat, here: bool)
    requires Increasing(before, size) && size < size' && Noted(before, after, here, size, size')
    ensures Increasing(after, size')
  {
    assert here ==> after == before + [after[|before|]];
  }

  datatype Extent = Extent(begin: nat, end: nat)

  /** The place noted for the site at instruction `j` lies in the out-of-line code of that instruction. */
  ghost predicate ColdPlaceOf(code: seq<Ins>, site: Site, outOfLine: map<nat, Extent>, places: seq<nat>, j: nat)
    requires j < |code| && Rank(code, site, j) < |places|
  {
    Start(code, j) in outOfLine && outOfLine[Start(code, j)].begin < places[Rank(code, site, j)] < outOfLine[Start(code, j)].end
  }

  /** This holds of as many sites as places are noted. */
  ghost predicate ColdPlaced(code: seq<Ins>, site: Site, outOfLine: map<nat, Extent>, places: seq<nat>) {
    forall j | 0 <= j < |code| && Is(site, code[j].op) && Rank(code, site, j) < |places| :: ColdPlaceOf(code, site, outOfLine, places, j)
  }

  lemma ColdStays(code: seq<Ins>, site: Site, outOfLine: map<nat, Extent>, places: seq<nat>, k: nat, j: nat, places': seq<nat>, extent: Extent)
    requires j < k < |code| && Is(site, code[j].op) && |places| == Rank(code, site, k) && places <= places'
    requires ColdPlaced(code, site, outOfLine, places) && Rank(code, site, j) < |places'|
    ensures ColdPlaceOf(code, site, outOfLine[Start(code, k) := extent], places', j)
  {
    hide Is, Sites, Width;
    RankGrows(code, site, j, k);
    assert ColdPlaceOf(code, site, outOfLine, places, j);
    StartMonotone(code, j, k);
  }

  lemma NoneLater(code: seq<Ins>, site: Site, k: nat, j: nat, n: nat)
    requires k < j < |code| && n == Rank(code, site, k) + if Is(site, code[k].op) then 1 else 0
    ensures Rank(code, site, j) >= n
  {
    hide Is;
    SitesPrefix(code, site, k, j);
    if Is(site, code[k].op) { RankGrows(code, site, k, j); }
  }

  /** One more visit; a site is visited once. */
  lemma ColdKept(code: seq<Ins>, site: Site, outOfLine: map<nat, Extent>, places: seq<nat>, k: nat, size: nat, places': seq<nat>, size': nat)
    requires k < |code| && ColdPlaced(code, site, outOfLine, places) && |places| == Rank(code, site, k)
    requires Noted(places, places', Is(site, code[k].op), size, size')
    ensures ColdPlaced(code, site, outOfLine[Start(code, k) := Extent(size, size')], places')
  {
    hide Is, Sites, Start;
    var outOfLine' := outOfLine[Start(code, k) := Extent(size, size')];
    forall j | 0 <= j < |code| && Is(site, code[j].op) && Rank(code, site, j) < |places'|
      ensures ColdPlaceOf(code, site, outOfLine', places', j)
    {
      if j < k {
        ColdStays(code, site, outOfLine, places, k, j, places', Extent(size, size'));
      } else if k < j {
        NoneLater(code, site, k, j, |places'|);
      }
    }
  }

  class CTI {
    const words: seq<Word>
    ghost const code: seq<Ins>
    const sse2: bool
    const propertyAccessInstructions: seq<nat>
    const callLinkInfos: nat
    var size: nat                       // of the code assembled so far
    var labels: map<nat, nat>           // the address of the code of each opcode
    var slowCases: seq<SlowCaseEntry>
    var hotPathBegin: seq<nat>          // per property access
    var callReturnLocation: seq<nat>    // per property access
    var hotCallBegin: seq<nat>          // per call: the check of the function linked,
    var hotCallOther: seq<nat>          // where the call to it returns,
    var coldCallReturn: seq<nat>        // where the call that links returns,
    var coldCallOther: seq<nat>         // and where it is to go when linking has been tried
    ghost var before: seq<SlowCaseEntry> // the notes of the opcodes before the current one
    ghost var planted: nat              // the notes the current opcode has left
    ghost var linked: map<nat, nat>     // the opcode whose slow code a jump leads to
    ghost var done: set<nat>            // the notes consumed
    ghost var first: nat                // the visit of a slow case: its first note,
    ghost var mine: nat                 // how many it is to consume,
    ghost var earlier: set<nat>         // and what was consumed before
    ghost var resumes: map<nat, nat>    // the opcode each opcode's slow code jumps back to
    ghost var patchable: seq<Patchable> // per property access
    ghost var linkable: seq<Linkable>   // per call
    ghost var outOfLine: map<nat, Extent> // where the slow code of an opcode is

    /** The code was generated with its tables, and does not end in a slow case. */
    ghost predicate Wellformed() {
      && Flattened(words, code)
      && propertyAccessInstructions == Sites(code, Access, |code|)
      && callLinkInfos == Rank(code, CallSite, |code|)
      && (|code| > 0 ==> Planted(code[|code| - 1], sse2) == 0)
    }

    constructor (words: seq<Word>, ghost code: seq<Ins>, sse2: bool, propertyAccessInstructions: seq<nat>, callLinkInfos: nat)
      ensures this.words == words && this.code == code && this.sse2 == sse2
      ensures this.propertyAccessInstructions == propertyAccessInstructions && this.callLinkInfos == callLinkInfos
      ensures slowCases == [] && hotPathBegin == [] && patchable == [] && callReturnLocation == []
      ensures hotCallBegin == hotCallOther == coldCallReturn == coldCallOther == [] && linkable == []
      ensures labels == map[] && linked == map[] && resumes == map[] && done == {}
    {
      this.words, this.code, this.sse2 := words, code, sse2;
      this.propertyAccessInstructions, this.callLinkInfos := propertyAccessInstructions, callLinkInfos;
      size, labels, slowCases, hotPathBegin, callReturnLocation := 0, map[], [], [], [];
      hotCallBegin, hotCallOther, coldCallReturn, coldCallOther := [], [], [], [];
      before, planted, linked, done, resumes, outOfLine := [], 0, map[], {}, map[], map[];
      first, mine, earlier, patchable, linkable := 0, 0, {}, [], [];
    }

    /** Assembles some code; how much is the assembler's business. */
    method Assemble()
      modifies this`size
      ensures size > old(size)
    {
      var n: nat :| n > 0;
      size := size + n;
    }

    /** Assembles an instruction of known length. */
    method AssembleBytes(n: nat)
      requires n > 0
      modifies this`size
      ensures size == old(size) + n
    {
      size := size + n;
    }

    // ---------------------------------------------------------- main pass

    ghost predicate Planting(i: nat)
      reads this`before, this`planted, this`slowCases, this`size
    {
      JumpsOrdered(slowCases, size) && Added(before, slowCases, i, planted)
    }

    /** Code that leaves no note. */
    method EmitCode(i: nat)
      requires Planting(i)
      modifies this`size
      ensures Planting(i) && size > old(size)
    {
      Assemble();
    }

    method EmitBytes(i: nat, n: nat)
      requires Planting(i) && n > 0
      modifies this`size
      ensures Planting(i) && size == old(size) + n
    {
      AssembleBytes(n);
    }

    /** A jump out of line, noted for the slow pass. */
    method PlantSlowCase(i: nat)
      requires Planting(i)
      modifies this`size, this`slowCases, this`planted
      ensures Planting(i) && planted == old(planted) + 1 && size == old(size) + 6
    {
      var from := size;
      AssembleBytes(6);
      slowCases := slowCases + [SlowCaseEntry(from, i)];
      planted := planted + 1;
    }

    method EmitJumpSlowCaseIfNotJSCell(i: nat)
      requires Planting(i)
      modifies this`size, this`slowCases, this`planted
      ensures Planting(i) && planted == old(planted) + 1 && size == old(size) + 12
    {
      EmitBytes(i, 6);
      PlantSlowCase(i);
    }

    method EmitJumpSlowCaseIfNotImmNum(i: nat)
      requires Planting(i)
      modifies this`size, this`slowCases, this`planted
      ensures Planting(i) && planted == old(planted) + 1
    {
      EmitCode(i);
      PlantSlowCase(i);
    }

    method EmitJumpSlowCaseIfNotImmNums(i: nat)
      requires Planting(i)
      modifies this`size, this`slowCases, this`planted
      ensures Planting(i) && planted == old(planted) + 1
    {
      EmitCode(i);
      EmitJumpSlowCaseIfNotImmNum(i);
    }

    /** The operand that is to be reused is a number cell, or the slow case is taken. */
    method EmitNumberCellCheck(type_: ResultType, i: nat)
      requires Planting(i)
      modifies this`size, this`slowCases, this`planted
      ensures Planting(i) && planted == old(planted) + if type_.definitelyIsNumber then 0 else 2
    {
      if !type_.definitelyIsNumber {
        EmitJumpSlowCaseIfNotJSCell(i);
        PlantSlowCase(i);
      }
    }

    method CompileBinaryArithOp(ins: Ins, i: nat)
      requires Planting(i) && (ins.op.OpAdd? || ins.op.OpSub? || ins.op.OpMul?)
      modifies this`size, this`slowCases, this`planted
      ensures Planting(i) && planted == old(planted) + ArithPlanted(ins, sse2)
    {
      hide Planting;
      if ins.second.reusable && sse2 {
        EmitNumberCellCheck(ins.second, i);
        EmitNumberCellCheck(ins.first, i);
        EmitCode(i);
        EmitJumpSlowCaseIfNotImmNum(i);
      } else if ins.first.reusable && sse2 {
        EmitNumberCellCheck(ins.first, i);
        EmitNumberCellCheck(ins.second, i);
        EmitCode(i);
        EmitJumpSlowCaseIfNotImmNum(i);
      } else {
        EmitJumpSlowCaseIfNotImmNums(i);
      }
      if ins.op.OpAdd? {
        PlantSlowCase(i);
      } else if ins.op.OpSub? {
        PlantSlowCase(i);
      } else {
        PlantSlowCase(i);   // -0
        PlantSlowCase(i);   // overflow
      }
    }

    /** Arithmetic on numbers. */
    method CompileArithmetic(ins: Ins, i: nat) returns (next: nat)
      requires Planting(i) && planted == 0
      requires IsArithmetic(ins.op)
      modifies this`size, this`slowCases, this`planted
      ensures Planting(i) && planted == Planted(ins, sse2) && next == i + Width(ins.op)
    {
      hide Planting;
      match ins.op
      case OpAdd =>
        if ins.src1.Some? {
          EmitJumpSlowCaseIfNotImmNum(i);
          PlantSlowCase(i);
        } else if ins.src2.Some? {
          EmitJumpSlowCaseIfNotImmNum(i);
          PlantSlowCase(i);
        } else if ins.first.mightBeNumber && ins.second.mightBeNumber {
          CompileBinaryArithOp(ins, i);
        } else {
          EmitCode(i);
        }
        next := i + 5;
      case OpSub =>
        CompileBinaryArithOp(ins, i);
        next := i + 5;
      case OpMul =>
        // Only a constant greater than zero gets a fast path of its own.
        if ins.src1.Some? && ins.src1.value > 0 {
          EmitJumpSlowCaseIfNotImmNum(i);
          PlantSlowCase(i);
        } else if ins.src2.Some? && ins.src2.value > 0 {
          EmitJumpSlowCaseIfNotImmNum(i);
          PlantSlowCase(i);
        } else {
          CompileBinaryArithOp(ins, i);
        }
        next := i + 5;
      case OpNegate =>
        EmitCode(i);
        if sse2 {
          PlantSlowCase(i);
          PlantSlowCase(i);
          if !ins.first.definitelyIsNumber {
            EmitJumpSlowCaseIfNotJSCell(i);
            PlantSlowCase(i);
          }
        }
        next := i + 4;
      case OpMod =>
        EmitJumpSlowCaseIfNotImmNum(i);
        EmitJumpSlowCaseIfNotImmNum(i);
        PlantSlowCase(i);
        next := i + 4;
      case OpPreInc =>
        EmitJumpSlowCaseIfNotImmNum(i);
        PlantSlowCase(i);
        next := i + 2;
      case OpPreDec =>
        EmitJumpSlowCaseIfNotImmNum(i);
        PlantSlowCase(i);
        next := i + 2;
      case OpPostInc =>
        EmitJumpSlowCaseIfNotImmNum(i);
        PlantSlowCase(i);
        next := i + 3;
      case OpPostDec =>
        EmitJumpSlowCaseIfNotImmNum(i);
        PlantSlowCase(i);
        next := i + 3;
      case OpToJSNumber =>
        EmitJumpSlowCaseIfNotJSCell(i);
        PlantSlowCase(i);
        next := i + 3;
    }

    /** Bit operations, shifts and tests for equality. */
    method CompileBitwise(ins: Ins, i: nat) returns (next: nat)
      requires Planting(i) && planted == 0
      requires IsBitwise(ins.op)
      modifies this`size, this`slowCases, this`planted
      ensures Planting(i) && planted == Planted(ins, sse2) && next == i + Width(ins.op)
    {
      hide Planting;
      match ins.op
      case OpLshift =>
        EmitJumpSlowCaseIfNotImmNum(i);
        EmitJumpSlowCaseIfNotImmNum(i);
        PlantSlowCase(i);
        next := i + 4;
      case OpRshift =>
        EmitJumpSlowCaseIfNotImmNum(i);
        EmitJumpSlowCaseIfNotImmNum(i);
        next := i + 4;
      case OpBitAnd =>
        EmitJumpSlowCaseIfNotImmNum(i);
        next := i + 5;
      case OpBitOr =>
        EmitJumpSlowCaseIfNotImmNums(i);
        next := i + 5;
      case OpBitXor =>
        EmitJumpSlowCaseIfNotImmNums(i);
        next := i + 5;
      case OpBitNot =>
        EmitJumpSlowCaseIfNotImmNum(i);
        next := i + 3;
      case OpEq =>
        EmitJumpSlowCaseIfNotImmNums(i);
        next := i + 4;
      case OpNeq =>
        EmitJumpSlowCaseIfNotImmNums(i);
        next := i + 4;
      case OpStrictEq =>
        CompileOpStrictEq(i);
        next := i + 4;
      case OpNStrictEq =>
        CompileOpStrictEq(i);
        next := i + 4;
      case OpNot =>
        PlantSlowCase(i);
        next := i + 3;
    }

    method CompileOpStrictEq(i: nat)
      requires Planting(i)
      modifies this`size, this`slowCases, this`planted
      ensures Planting(i) && planted == old(planted) + 2
    {
      hide Planting;
      EmitCode(i);
      PlantSlowCase(i);
      EmitCode(i);
      PlantSlowCase(i);
    }

    /** Conditional jumps, and tests on objects. */
    method CompileJump(ins: Ins, i: nat) returns (next: nat)
      requires Planting(i) && planted == 0
      requires IsJump(ins.op)
      modifies this`size, this`slowCases, this`planted
      ensures Planting(i) && planted == Planted(ins, sse2) && next == i + Width(ins.op)
    {
      hide Planting;
      match ins.op
      case OpLoopIfLess =>
        CompileCompare(ins, i);
        next := i + 4;
      case OpLoopIfLessEq =>
        CompileCompare(ins, i);
        next := i + 4;
      case OpJNLess =>
        CompileCompare(ins, i);
        next := i + 4;
      case OpLoopIfTrue =>
        PlantSlowCase(i);
        next := i + 3;
      case OpJTrue =>
        PlantSlowCase(i);
        next := i + 3;
      case OpJFalse =>
        PlantSlowCase(i);
        next := i + 3;
      case OpConvertThis =>
        EmitJumpSlowCaseIfNotJSCell(i);
        PlantSlowCase(i);
        next := i + 2;
      case OpInstanceOf =>
        PlantSlowCase(i); // any is an immediate
        PlantSlowCase(i); // any is not an object
        PlantSlowCase(i); // hasInstance is overridden
        next := i + 5;
    }

    method CompileCompare(ins: Ins, i: nat)
      requires Planting(i)
      modifies this`size, this`slowCases, this`planted
      ensures Planting(i) && planted == old(planted) + if ins.src2.Some? then 1 else 2
    {
      hide Planting;
      if ins.src2.Some? {
        EmitJumpSlowCaseIfNotImmNum(i);
      } else {
        EmitJumpSlowCaseIfNotImmNum(i);
        EmitJumpSlowCaseIfNotImmNum(i);
      }
    }

    /** The check of the structure, and a load or store to whichever offset: both are
        patched, and so is the branch, when the property is cached. */
    method CompileById(i: nat)
      requires Planting(i)
      requires |hotPathBegin| < |propertyAccessInstructions| && propertyAccessInstructions[|hotPathBegin|] == i
      modifies this`size, this`slowCases, this`planted, this`hotPathBegin, this`patchable
      ensures Planting(i) && planted == old(planted) + 2
      ensures PathNoted(old(hotPathBegin), old(patchable), hotPathBegin, patchable, true, old(size), size)
    {
      hide Planting;
      EmitCode(i);
      assert propertyAccessInstructions[|hotPathBegin|] == i;
      hotPathBegin := hotPathBegin + [size];
      EmitJumpSlowCaseIfNotJSCell(i);
      EmitBytes(i, 7); // ends in the structure compared with
      ghost var structureID := size;
      PlantSlowCase(i);
      ghost var branch := size;
      EmitBytes(i, 3); // the storage
      EmitBytes(i, 6); // ends in the offset
      patchable := patchable + [Patchable(structureID, branch, size)];
      EmitCode(i);
    }

    method CompileGetByVal(i: nat)
      requires Planting(i)
      modifies this`size, this`slowCases, this`planted
      ensures Planting(i) && planted == old(planted) + 4
    {
      hide Planting;
      EmitJumpSlowCaseIfNotImmNum(i);
      PlantSlowCase(i); // base is an immediate
      PlantSlowCase(i); // base is not an array
      PlantSlowCase(i); // index is not below the fast cutoff
    }

    method CompilePutByVal(i: nat)
      requires Planting(i)
      modifies this`size, this`slowCases, this`planted
      ensures Planting(i) && planted == old(planted) + 5
    {
      hide Planting;
      EmitJumpSlowCaseIfNotImmNum(i);
      PlantSlowCase(i); // base is an immediate
      PlantSlowCase(i); // base is not an array
      PlantSlowCase(i); // index is not within the vector
      PlantSlowCase(i); // first write to the index
    }

    /** A check of the function linked, then the way to it. */
    method CompileOpCall(ins: Ins, i: nat)
      requires Planting(i)
      modifies this`size, this`slowCases, this`planted, this`hotCallBegin, this`hotCallOther, this`linkable
      ensures Planting(i) && planted == old(planted) + 1
      ensures CallNoted(old(hotCallBegin), old(hotCallOther), old(linkable), hotCallBegin, hotCallOther, linkable, true, old(size), size)
    {
      hide Planting;
      if ins.op.OpCallEval? { EmitCode(i); }
      EmitCode(i);
      ghost var function_ := size;
      hotCallBegin := hotCallBegin + [size];
      PlantSlowCase(i);
      linkable := linkable + [Linkable(function_, size)];
      if ins.op.OpConstruct? { EmitCode(i); }
      EmitCode(i);
      hotCallOther := hotCallOther + [size];
      EmitCode(i);
    }

    /** Property accesses and calls. */
    method CompileAccess(ins: Ins, i: nat) returns (next: nat)
      requires Planting(i) && planted == 0
      requires IsAccess(ins.op)
      requires IsPropertyAccess(ins.op) ==>
        |hotPathBegin| < |propertyAccessInstructions| && propertyAccessInstructions[|hotPathBegin|] == i
      modifies this`size, this`slowCases, this`planted, this`hotPathBegin, this`patchable, this`hotCallBegin, this`hotCallOther, this`linkable
      ensures Planting(i) && planted == Planted(ins, sse2) && next == i + Width(ins.op)
      ensures PathNoted(old(hotPathBegin), old(patchable), hotPathBegin, patchable, IsPropertyAccess(ins.op), old(size), size)
      ensures CallNoted(old(hotCallBegin), old(hotCallOther), old(linkable), hotCallBegin, hotCallOther, linkable, IsCall(ins.op), old(size), size)
    {
      hide Planting;
      match ins.op
      case OpGetById =>
        CompileById(i);
        next := i + 8;
      case OpPutById =>
        CompileById(i);
        next := i + 8;
      case OpGetByVal =>
        CompileGetByVal(i);
        next := i + 4;
      case OpPutByVal =>
        CompilePutByVal(i);
        next := i + 4;
      case OpCall =>
        CompileOpCall(ins, i);
        next := i + 7;
      case OpCallEval =>
        CompileOpCall(ins, i);
        next := i + 7;
      case OpConstruct =>
        CompileOpCall(ins, i);
        next := i + 7;
    }

    method CompileOther(ins: Ins, i: nat) returns (next: nat)
      requires Planting(i) && planted == 0 && ins.op.OpOther?
      modifies this`size
      ensures Planting(i) && planted == Planted(ins, sse2) && next == i + Width(ins.op)
    {
      EmitCode(i);
      next := i + 1 + ins.op.width;
    }

    method CompileByKind(ins: Ins, i: nat) returns (next: nat)
      requires Planting(i) && planted == 0
      requires IsPropertyAccess(ins.op) ==>
        |hotPathBegin| < |propertyAccessInstructions| && propertyAccessInstructions[|hotPathBegin|] == i
      modifies this`size, this`slowCases, this`planted, this`hotPathBegin, this`patchable, this`hotCallBegin, this`hotCallOther, this`linkable
      ensures Planting(i) && planted == Planted(ins, sse2) && next == i + Width(ins.op)
      ensures PathNoted(old(hotPathBegin), old(patchable), hotPathBegin, patchable, IsPropertyAccess(ins.op), old(size), size)
      ensures CallNoted(old(hotCallBegin), old(hotCallOther), old(linkable), hotCallBegin, hotCallOther, linkable, IsCall(ins.op), old(size), size)
    {
      hide Planting, Planted, Width, IsArithmetic, IsBitwise, IsJump, IsAccess, IsPropertyAccess, IsCall;
      Kinds(ins.op);
      if IsAccess(ins.op) {
        next := CompileAccess(ins, i);
      } else if IsJump(ins.op) {
        next := CompileJump(ins, i);
      } else if IsBitwise(ins.op) {
        next := CompileBitwise(ins, i);
      } else if IsArithmetic(ins.op) {
        next := CompileArithmetic(ins, i);
      } else {
        next := CompileOther(ins, i);
      }
    }

    method CompileInstruction(ins: Ins, i: nat) returns (next: nat)
      requires JumpsOrdered(slowCases, size)
      requires IsPropertyAccess(ins.op) ==>
        |hotPathBegin| < |propertyAccessInstructions| && propertyAccessInstructions[|hotPathBegin|] == i
      modifies this`size, this`slowCases, this`before, this`planted, this`hotPathBegin, this`patchable, this`hotCallBegin, this`hotCallOther, this`linkable, this`labels
      ensures JumpsOrdered(slowCases, size) && Added(old(slowCases), slowCases, i, Planted(ins, sse2))
      ensures next == i + Width(ins.op)
      ensures labels == old(labels)[i := old(size)]
      ensures PathNoted(old(hotPathBegin), old(patchable), hotPathBegin, patchable, IsPropertyAccess(ins.op), old(size), size)
      ensures CallNoted(old(hotCallBegin), old(hotCallOther), old(linkable), hotCallBegin, hotCallOther, linkable, IsCall(ins.op), old(size), size)
    {
      hide Planted, Width, IsCall, IsPropertyAccess;
      labels := labels[i := size];
      before, planted := slowCases, 0;
      next := CompileByKind(ins, i);
    }

    /** What the main pass leaves for the slow pass. */
    ghost predicate NotesReady()
      reads this`slowCases, this`labels
    {
      && |slowCases| == Before(code, sse2, |code|)
      && (forall k | 0 <= k < |code| :: NotesOf(slowCases, code, sse2, k))
      && (forall k | 0 <= k < |code| :: Start(code, k) in labels)
    }

    /** The address is in the code that the main pass assembled for instruction `k`. */
    ghost predicate InLine(k: nat, address: int)
      requires k < |code|
      reads this`labels
    {
      && Start(code, k) in labels && (k + 1 < |code| ==> Start(code, k + 1) in labels)
      && labels[Start(code, k)] < address && (k + 1 < |code| ==> address < labels[Start(code, k + 1)])
    }

    /** The address is in the code that the slow pass assembled for instruction `k`. */
    ghost predicate OutOfLine(k: nat, address: int)
      requires k < |code|
      reads this`outOfLine
    {
      Start(code, k) in outOfLine && outOfLine[Start(code, k)].begin < address < outOfLine[Start(code, k)].end
    }

    /** What is noted for a site in the main pass lies in the code of that site. */
    ghost predicate HotPlaced()
      reads this`labels, this`hotPathBegin, this`patchable, this`hotCallBegin, this`hotCallOther, this`linkable
    {
      && |hotPathBegin| == |patchable| == Rank(code, Access, |code|) && |hotCallBegin| == |hotCallOther| == |linkable| == Rank(code, CallSite, |code|)
      && (forall k | 0 <= k < |code| && IsPropertyAccess(code[k].op) :: AccessPlaced(k))
      && (forall k | 0 <= k < |code| && IsCall(code[k].op) :: CallPlaced(k))
    }

    ghost predicate AccessPlaced(k: nat)
      requires k < |code|
      reads this`labels, this`hotPathBegin, this`patchable
    {
      var n := Rank(code, Access, k);
      && n < |hotPathBegin| && n < |patchable| && AtOffsets(patchable[n], hotPathBegin[n])
      && InLine(k, hotPathBegin[n]) && InLine(k, patchable[n].offset)
    }

    ghost predicate CallPlaced(k: nat)
      requires k < |code|
      reads this`labels, this`hotCallBegin, this`hotCallOther, this`linkable
    {
      var n := Rank(code, CallSite, k);
      && n < |hotCallBegin| && n < |hotCallOther| && n < |linkable|
      && LinkedAt(linkable[n], hotCallBegin[n]) && linkable[n].branch < hotCallOther[n]
      && InLine(k, hotCallBegin[n]) && InLine(k, hotCallOther[n])
    }

    lemma HotDone(end: nat)
      requires AccessesPlaced(code, labels, hotPathBegin, patchable, |code|, end)
      requires CallsPlaced(code, labels, hotCallBegin, hotCallOther, linkable, |code|, end)
      ensures HotPlaced()
    {
      hide Start, Sites;
      forall k | 0 <= k < |code| && IsPropertyAccess(code[k].op) ensures AccessPlaced(k) {
        assert Is(Access, code[k].op);
        assert PlaceOf(code, Access, labels, hotPathBegin, k, |code|, end);
        assert PlaceOf(code, Access, labels, Offsets(patchable), k, |code|, end);
      }
      forall k | 0 <= k < |code| && IsCall(code[k].op) ensures CallPlaced(k) {
        assert Is(CallSite, code[k].op);
        assert PlaceOf(code, CallSite, labels, hotCallBegin, k, |code|, end);
        assert PlaceOf(code, CallSite, labels, hotCallOther, k, |code|, end);
      }
    }

    ghost predicate MainPassDone()
      reads this
    {
      && JumpsOrdered(slowCases, size)
      && NotesReady()
      && HotPlaced()
    }

    method PrivateCompileMainPass()
      requires Wellformed() && slowCases == [] && hotPathBegin == hotCallBegin == hotCallOther == [] && patchable == [] && linkable == []
      modifies this`size, this`slowCases, this`before, this`planted, this`hotPathBegin, this`patchable, this`hotCallBegin, this`hotCallOther, this`linkable, this`labels
      ensures MainPassDone()
    {
      hide Planted, Added, NotesOf, Width, IsCall, AccessesPlaced, CallsPlaced, Sites;
      NothingPlaced();
      var i := 0;
      ghost var k: nat := 0;
      while i < |words|
        invariant k <= |code| && i == Start(code, k) && JumpsOrdered(slowCases, size)
        invariant |slowCases| == Before(code, sse2, k)
        invariant forall j | 0 <= j < k :: NotesOf(slowCases, code, sse2, j)
        invariant forall j | 0 <= j < k :: Start(code, j) in labels
        invariant AccessesPlaced(code, labels, hotPathBegin, patchable, k, size)
        invariant CallsPlaced(code, labels, hotCallBegin, hotCallOther, linkable, k, size)
        decreases |code| - k
      {
        OpcodeFound(words, code, k);
        PathCounted(k);
        AccessHere(k);
        ghost var notes, size', labels', paths, patchables, begins, others, linkables :=
          slowCases, size, labels, hotPathBegin, patchable, hotCallBegin, hotCallOther, linkable;
        i := CompileInstruction(words[i].ins, i);
        NotesKept(notes, slowCases, code, sse2, k);
        AccessesKept(code, labels', paths, patchables, k, size', hotPathBegin, patchable, size);
        CallsKept(code, labels', begins, others, linkables, k, size', hotCallBegin, hotCallOther, linkable, size);
        k := k + 1;
      }
      assert k < |code| ==> OpcodeAt(words, code, k);
      HotDone(size);
    }

    lemma NothingPlaced()
      requires hotPathBegin == hotCallBegin == hotCallOther == [] && patchable == [] && linkable == []
      ensures AccessesPlaced(code, labels, hotPathBegin, patchable, 0, size) && CallsPlaced(code, labels, hotCallBegin, hotCallOther, linkable, 0, size)
    {
    }

    lemma PathCounted(k: nat)
      requires k < |code| && AccessesPlaced(code, labels, hotPathBegin, patchable, k, size)
      ensures |hotPathBegin| == Rank(code, Access, k)
    {
    }

    // ---------------------------------------------------------- slow pass

    /** The notes consumed lead to code of their own opcode. */
    ghost predicate Tied()
      reads this`linked, this`done, this`slowCases
    {
      && (forall p, q | 0 <= p < q < |slowCases| :: slowCases[p].from < slowCases[q].from)
      && forall j | j in done :: j < |slowCases| && slowCases[j].from in linked && linked[slowCases[j].from] == slowCases[j].to
    }

    /** The notes this visit is to consume are those of the opcode at `i`. */
    ghost predicate Mine(i: nat)
      reads this`slowCases, this`first, this`mine
    {
      first + mine <= |slowCases| && forall j | first <= j < first + mine :: slowCases[j].to == i
    }

    /** The visit has consumed its notes up to and including `iter`. */
    ghost predicate Visiting(i: nat, iter: nat)
      reads this`slowCases, this`linked, this`done, this`first, this`mine, this`earlier
    {
      && Tied() && Mine(i) && first <= iter < first + mine
      && earlier <= done && forall j | first <= j <= iter :: j in done
    }

    /** Links a noted jump to the code assembled for the opcode at `i`. */
    method LinkFirst(iter: nat, i: nat)
      requires Tied() && Mine(i) && earlier <= done && iter == first && mine > 0
      modifies this`linked, this`done
      ensures Visiting(i, iter)
    {
      linked := linked[slowCases[iter].from := i];
      done := done + {iter};
    }

    /** Moves on to the next note, and links it. */
    method LinkNext(iter: nat, i: nat) returns (next: nat)
      requires Visiting(i, iter) && iter + 1 < first + mine
      modifies this`linked, this`done
      ensures next == iter + 1 && Visiting(i, next)
    {
      next := iter + 1;
      linked := linked[slowCases[next].from := i];
      done := done + {next};
    }

    method EmitCTICall() returns (call: nat)
      modifies this`size
      ensures old(size) < call < size
    {
      Assemble();
      call := size;
      Assemble();
    }

    /** The two notes of the check of an operand not known to be a number. */
    method LinkNumberCheck(type_: ResultType, iter: nat, i: nat) returns (last: nat)
      requires Visiting(i, iter) && (!type_.definitelyIsNumber ==> iter + 2 < first + mine)
      modifies this`linked, this`done
      ensures last == iter + (if type_.definitelyIsNumber then 0 else 2) && Visiting(i, last)
    {
      hide Visiting;
      last := iter;
      if !type_.definitelyIsNumber {
        last := LinkNext(last, i);
        last := LinkNext(last, i);
      }
    }

    method CompileBinaryArithOpSlowCase(ins: Ins, iter: nat, i: nat) returns (last: nat)
      requires Tied() && Mine(i) && earlier <= done && iter == first && mine == ArithPlanted(ins, sse2)
      requires ins.op.OpAdd? || ins.op.OpSub? || ins.op.OpMul?
      modifies this`linked, this`done, this`size
      ensures last == first + mine - 1 && Visiting(i, last) && size > old(size)
    {
      hide Tied, Mine, Visiting;
      last := iter;
      LinkFirst(last, i);
      if ins.second.reusable && sse2 {
        last := LinkNumberCheck(ins.first, last, i);
        last := LinkNumberCheck(ins.second, last, i);
        last := LinkNext(last, i);
      } else if ins.first.reusable && sse2 {
        last := LinkNumberCheck(ins.first, last, i);
        last := LinkNumberCheck(ins.second, last, i);
        last := LinkNext(last, i);
      } else {
        last := LinkNext(last, i);
      }
      if ins.op.OpMul? { // an additional entry for -0
        last := LinkNext(last, i);
      }
      var _ := EmitCTICall();
    }

    /** A single note, and the call of the helper. */
    method LinkOne(iter: nat, i: nat)
      requires Tied() && Mine(i) && earlier <= done && iter == first && mine == 1
      modifies this`linked, this`done, this`size
      ensures Visiting(i, iter) && size > old(size)
    {
      hide Tied, Mine, Visiting;
      LinkFirst(iter, i);
      var _ := EmitCTICall();
    }

    /** Two notes, and the call of the helper. */
    method LinkTwo(iter: nat, i: nat) returns (last: nat)
      requires Tied() && Mine(i) && earlier <= done && iter == first && mine == 2
      modifies this`linked, this`done, this`size
      ensures last == first + 1 && Visiting(i, last) && size > old(size)
    {
      hide Tied, Mine, Visiting;
      LinkFirst(iter, i);
      last := LinkNext(iter, i);
      var _ := EmitCTICall();
    }

    method CompileArithmeticSlowCase(ins: Ins, iter: nat, i: nat) returns (last: nat, next: nat)
      requires IsArithmetic(ins.op) && Planted(ins, sse2) > 0
      requires Tied() && Mine(i) && earlier <= done && iter == first && mine == Consumed(ins, sse2)
      modifies this`linked, this`done, this`size
      ensures last == first + mine - 1 && Visiting(i, last) && next == i + Width(ins.op) && size > old(size)
    {
      hide Tied, Mine, Visiting;
      last := iter;
      match ins.op
      case OpAdd =>
        if ins.src1.Some? {
          last := LinkTwo(last, i); // the operand is intact if it was not a number
        } else if ins.src2.Some? {
          last := LinkTwo(last, i);
        } else {
          last := CompileBinaryArithOpSlowCase(ins, iter, i);
        }
        next := i + 5;
      case OpSub =>
        last := CompileBinaryArithOpSlowCase(ins, iter, i);
        next := i + 5;
      case OpMul =>
        if ins.src1.Some? && ins.src1.value > 0 {
          LinkOne(last, i);
        } else if ins.src2.Some? && ins.src2.value > 0 {
          LinkOne(last, i);
        } else {
          last := CompileBinaryArithOpSlowCase(ins, iter, i);
        }
        next := i + 5;
      case OpNegate =>
        LinkOne(last, i);
        next := i + 4;
      case OpMod =>
        LinkFirst(last, i);
        last := LinkNext(last, i);
        last := LinkNext(last, i);
        var _ := EmitCTICall();
        next := i + 4;
      case OpPreInc =>
        last := LinkTwo(last, i);
        next := i + 2;
      case OpPreDec =>
        last := LinkTwo(last, i);
        next := i + 2;
      case OpPostInc =>
        last := LinkTwo(last, i);
        next := i + 3;
      case OpPostDec =>
        last := LinkTwo(last, i);
        next := i + 3;
      case OpToJSNumber =>
        LinkOne(last, i); // links the same note twice
        next := i + 3;
    }

    method CompileBitwiseSlowCase(ins: Ins, iter: nat, i: nat) returns (last: nat, next: nat)
      requires IsBitwise(ins.op)
      requires Tied() && Mine(i) && earlier <= done && iter == first && mine == Consumed(ins, sse2)
      modifies this`linked, this`done, this`size
      ensures last == first + mine - 1 && Visiting(i, last) && next == i + Width(ins.op) && size > old(size)
    {
      hide Tied, Mine, Visiting;
      last := iter;
      LinkFirst(last, i);
      match ins.op
      case OpLshift =>
        last := LinkNext(last, i);
        last := LinkNext(last, i);
        var _ := EmitCTICall();
        next := i + 4;
      case OpRshift =>
        last := LinkNext(last, i);
        var _ := EmitCTICall();
        next := i + 4;
      case OpBitAnd =>
        var _ := EmitCTICall();
        next := i + 5;
      case OpBitOr =>
        var _ := EmitCTICall();
        next := i + 5;
      case OpBitXor =>
        var _ := EmitCTICall();
        next := i + 5;
      case OpBitNot =>
        var _ := EmitCTICall();
        next := i + 3;
      case OpEq =>
        var _ := EmitCTICall();
        next := i + 4;
      case OpNeq =>
        var _ := EmitCTICall();
        next := i + 4;
      case OpStrictEq =>
        var _ := EmitCTICall();
        next := i + 4;
      case OpNStrictEq =>
        var _ := EmitCTICall();
        next := i + 4;
      case OpNot =>
        var _ := EmitCTICall();
        next := i + 3;
    }

    method LinkCompare(ins: Ins, iter: nat, i: nat) returns (last: nat)
      requires Visiting(i, iter) && (ins.src2.None? ==> iter + 1 < first + mine)
      modifies this`linked, this`done, this`size
      ensures last == iter + (if ins.src2.None? then 1 else 0) && Visiting(i, last) && size > old(size)
    {
      hide Visiting;
      last := iter;
      if ins.src2.None? { last := LinkNext(last, i); }
      var _ := EmitCTICall();
    }

    method CompileJumpSlowCase(ins: Ins, iter: nat, i: nat) returns (last: nat, next: nat)
      requires IsJump(ins.op)
      requires Tied() && Mine(i) && earlier <= done && iter == first && mine == Consumed(ins, sse2)
      modifies this`linked, this`done, this`size
      ensures last == first + mine - 1 && Visiting(i, last) && next == i + Width(ins.op) && size > old(size)
    {
      hide Tied, Mine, Visiting;
      last := iter;
      Assemble();
      LinkFirst(last, i);
      match ins.op
      case OpLoopIfLess =>
        last := LinkCompare(ins, last, i);
        next := i + 4;
      case OpLoopIfLessEq =>
        last := LinkCompare(ins, last, i);
        next := i + 4;
      case OpJNLess =>
        last := LinkCompare(ins, last, i);
        next := i + 4;
      case OpLoopIfTrue =>
        var _ := EmitCTICall();
        next := i + 3;
      case OpJTrue =>
        var _ := EmitCTICall();
        next := i + 3;
      case OpJFalse =>
        var _ := EmitCTICall();
        next := i + 3;
      case OpConvertThis =>
        last := LinkNext(last, i);
        var _ := EmitCTICall();
        next := i + 2;
      case OpInstanceOf =>
        var _ := EmitCTICall();
        next := i + 5;
    }

    /** Notes where the call returns to: that address will find the access again. */
    method CompileByIdSlowCase(iter: nat, i: nat) returns (last: nat)
      requires Visiting(i, iter) && iter + 2 == first + mine
      requires |callReturnLocation| < |propertyAccessInstructions| && propertyAccessInstructions[|callReturnLocation|] == i
      modifies this`linked, this`done, this`size, this`callReturnLocation
      ensures last == first + mine - 1 && Visiting(i, last) && size > old(size)
      ensures Noted(old(callReturnLocation), callReturnLocation, true, old(size), size)
    {
      last := LinkNext(iter, i);
      Assemble();
      var call := EmitCTICall();
      assert propertyAccessInstructions[|callReturnLocation|] == i;
      callReturnLocation := callReturnLocation + [call];
    }

    method LinkGetByVal(iter: nat, i: nat) returns (last: nat)
      requires Visiting(i, iter) && iter + 4 == first + mine
      modifies this`linked, this`done, this`size
      ensures last == iter + 3 && Visiting(i, last) && size > old(size)
    {
      hide Visiting;
      last := LinkNext(iter, i);
      last := LinkNext(last, i);
      var _ := EmitCTICall();
      last := LinkNext(last, i); // accesses above the fast cutoff
    }

    method LinkPutByVal(iter: nat, i: nat) returns (last: nat)
      requires Visiting(i, iter) && iter + 5 == first + mine
      modifies this`linked, this`done, this`size
      ensures last == iter + 4 && Visiting(i, last) && size > old(size)
    {
      hide Visiting;
      last := LinkNext(iter, i);
      last := LinkNext(last, i);
      var _ := EmitCTICall();
      last := LinkNext(last, i); // immediate accesses to arrays
      last := LinkNext(last, i);
      var _ := EmitCTICall();
    }

    method CompileAccessSlowCase(ins: Ins, iter: nat, i: nat) returns (last: nat, next: nat)
      requires IsAccess(ins.op)
      requires Tied() && Mine(i) && earlier <= done && iter == first && mine == Consumed(ins, sse2)
      requires IsPropertyAccess(ins.op) ==>
        |callReturnLocation| < |propertyAccessInstructions| && propertyAccessInstructions[|callReturnLocation|] == i
      modifies this`linked, this`done, this`size, this`callReturnLocation, this`coldCallReturn, this`coldCallOther
      ensures last == first + mine - 1 && Visiting(i, last) && next == i + Width(ins.op) && size > old(size)
      ensures Noted(old(callReturnLocation), callReturnLocation, IsPropertyAccess(ins.op), old(size), size)
      ensures BothNoted(old(coldCallReturn), old(coldCallOther), coldCallReturn, coldCallOther, IsCall(ins.op), old(size), size)
    {
      hide Tied, Mine, Visiting;
      last := iter;
      LinkFirst(last, i);
      match ins.op
      case OpGetById =>
        last := CompileByIdSlowCase(last, i);
        next := i + 8;
      case OpPutById =>
        last := CompileByIdSlowCase(last, i);
        next := i + 8;
      case OpGetByVal =>
        last := LinkGetByVal(last, i);
        next := i + 4;
      case OpPutByVal =>
        last := LinkPutByVal(last, i);
        next := i + 4;
      case OpCall =>
        CompileCallSlowCase();
        next := i + 7;
      case OpCallEval =>
        CompileCallSlowCase();
        next := i + 7;
      case OpConstruct =>
        CompileCallSlowCase();
        next := i + 7;
    }

    /** The first run tries to link; later runs come to the code after it. */
    method CompileCallSlowCase()
      modifies this`size, this`coldCallReturn, this`coldCallOther
      ensures size > old(size)
      ensures BothNoted(old(coldCallReturn), old(coldCallOther), coldCallReturn, coldCallOther, true, old(size), size)
    {
      var _ := EmitCTICall(); // the frame of the callee
      var link := EmitCTICall();
      coldCallReturn := coldCallReturn + [link];
      Assemble();
      coldCallOther := coldCallOther + [size];
      var _ := EmitCTICall(); // no function of the language
      var _ := EmitCTICall(); // the frame of the callee
      var _ := EmitCTICall(); // its code, if it has none yet
    }

    method CompileSlowCaseByKind(ins: Ins, iter: nat, i: nat) returns (last: nat, next: nat)
      requires Planted(ins, sse2) > 0
      requires Tied() && Mine(i) && earlier <= done && iter == first && mine == Consumed(ins, sse2)
      requires IsPropertyAccess(ins.op) ==>
        |callReturnLocation| < |propertyAccessInstructions| && propertyAccessInstructions[|callReturnLocation|] == i
      modifies this`linked, this`done, this`size, this`callReturnLocation, this`coldCallReturn, this`coldCallOther
      ensures last == first + mine - 1 && Visiting(i, last) && next == i + Width(ins.op) && size > old(size)
      ensures Noted(old(callReturnLocation), callReturnLocation, IsPropertyAccess(ins.op), old(size), size)
      ensures BothNoted(old(coldCallReturn), old(coldCallOther), coldCallReturn, coldCallOther, IsCall(ins.op), old(size), size)
    {
      OtherPlantsNothing(ins, sse2);
      Kinds(ins.op);
      hide Tied, Mine, Visiting, Planted, Consumed, Width, IsArithmetic, IsBitwise, IsJump, IsAccess, IsPropertyAccess, IsCall;
      if IsAccess(ins.op) {
        last, next := CompileAccessSlowCase(ins, iter, i);
      } else if IsJump(ins.op) {
        last, next := CompileJumpSlowCase(ins, iter, i);
      } else if IsBitwise(ins.op) {
        last, next := CompileBitwiseSlowCase(ins, iter, i);
      } else {
        last, next := CompileArithmeticSlowCase(ins, iter, i);
      }
    }

    /** One visit: the out-of-line code of an opcode, and a jump back to the next one. */
    method CompileSlowCase(iter: nat, ghost k: nat) returns (last: nat)
      requires Wellformed() && k < |code| && Planted(code[k], sse2) > 0
      requires Tied() && iter + Consumed(code[k], sse2) <= |slowCases|
      requires forall j | iter <= j < iter + Consumed(code[k], sse2) :: slowCases[j].to == Start(code, k)
      requires |callReturnLocation| == Rank(code, Access, k) && Start(code, k + 1) in labels
      modifies this`linked, this`done, this`size, this`callReturnLocation, this`coldCallReturn, this`coldCallOther, this`resumes, this`outOfLine, this`first, this`mine, this`earlier
      ensures last == iter + Consumed(code[k], sse2) - 1 && size > old(size)
      ensures Tied() && old(done) <= done && forall j | iter <= j <= last :: j in done
      ensures Noted(old(callReturnLocation), callReturnLocation, IsPropertyAccess(code[k].op), old(size), size)
      ensures BothNoted(old(coldCallReturn), old(coldCallOther), coldCallReturn, coldCallOther, IsCall(code[k].op), old(size), size)
      ensures resumes == old(resumes)[Start(code, k) := Start(code, k + 1)]
      ensures outOfLine == old(outOfLine)[Start(code, k) := Extent(old(size), size)]
    {
      hide *;
      OpcodeOf(k);
      OtherPlantsNothing(code[k], sse2);
      var i := slowCases[iter].to;
      var ins := words[i].ins;
      AccessHere(k);
      first, mine, earlier := iter, Consumed(ins, sse2), done;
      VisitBegins(i);
      ghost var begin := size;
      var next;
      last, next := CompileSlowCaseByKind(ins, iter, i);
      VisitEnds(i, last);
      outOfLine := outOfLine[i := Extent(begin, size)];
      assert labels[next] == labels[Start(code, k + 1)];
      resumes := resumes[i := next];
    }

    lemma OpcodeOf(k: nat)
      requires Wellformed() && k < |code|
      ensures Start(code, k) < |words| && words[Start(code, k)] == Opc(code[k])
      ensures Start(code, k + 1) == Start(code, k) + Width(code[k].op)
    {
      OpcodeFound(words, code, k);
    }

    lemma AccessHere(k: nat)
      requires Wellformed() && k < |code|
      ensures IsPropertyAccess(code[k].op) ==>
        Rank(code, Access, k) < |propertyAccessInstructions| && propertyAccessInstructions[Rank(code, Access, k)] == Start(code, k)
    {
      hide Start, Flattened, Planted, IsPropertyAccess;
      if IsPropertyAccess(code[k].op) { NextSite(code, Access, k); }
    }

    lemma VisitBegins(i: nat)
      requires first + mine <= |slowCases| && forall j | first <= j < first + mine :: slowCases[j].to == i
      ensures Mine(i)
    {
    }

    lemma VisitEnds(i: nat, last: nat)
      requires Visiting(i, last)
      ensures Tied() && earlier <= done && forall j | first <= j <= last :: j in done
    {
    }

    /** Whole instructions up to `k`, and possibly some notes of instruction `k`, are consumed. */
    ghost predicate Consuming(k: nat, q: nat)
      reads this`callReturnLocation, this`coldCallReturn, this`coldCallOther, this`resumes, this`outOfLine
    {
      && k <= |code|
      && (q == Before(code, sse2, k) || (k < |code| && Before(code, sse2, k) < q < Before(code, sse2, k + 1) && OneByOne(code[k])))
      && ColdDone(k)
      && forall j | 0 <= j < k && Planted(code[j], sse2) > 0 :: ResumesAfter(j)
    }

    /** What is noted for the sites before instruction `k` lies in their out-of-line code. */
    ghost predicate ColdDone(k: nat)
      requires k <= |code|
      reads this`callReturnLocation, this`coldCallReturn, this`coldCallOther, this`outOfLine
    {
      && |callReturnLocation| == Rank(code, Access, k) && |coldCallReturn| == |coldCallOther| == Rank(code, CallSite, k)
      && ColdPlaced(code, Access, outOfLine, callReturnLocation)
      && ColdPlaced(code, CallSite, outOfLine, coldCallReturn) && ColdPlaced(code, CallSite, outOfLine, coldCallOther)
      && forall n | 0 <= n < |coldCallReturn| :: coldCallReturn[n] < coldCallOther[n]
    }

    ghost predicate ResumesAfter(k: nat)
      requires k < |code|
      reads this`resumes
    {
      Start(code, k) in resumes && resumes[Start(code, k)] == Start(code, k + 1)
    }

    /** Every jump planted leads to code of its own opcode, none is skipped, and that code
        continues at the next opcode. */
    ghost predicate SlowCasesDone()
      reads this
    {
      && (forall j | 0 <= j < |slowCases| :: slowCases[j].from in linked && linked[slowCases[j].from] == slowCases[j].to)
      && (forall k | 0 <= k < |code| && Planted(code[k], sse2) > 0 :: ResumesAfter(k))
      && ColdDone(|code|) && Increasing(callReturnLocation, size)
    }

    /** Where a visit starts: at the first unconsumed note of instruction `k`. */
    lemma NextVisit(k: nat, q: nat)
      requires Wellformed() && NotesReady() && k < |code| && Planted(code[k], sse2) > 0
      requires q == Before(code, sse2, k) || (Before(code, sse2, k) < q < Before(code, sse2, k + 1) && OneByOne(code[k]))
      ensures var n := Consumed(code[k], sse2);
        && n > 0 && q + n <= Before(code, sse2, k + 1) <= |slowCases|
        && (forall j | q <= j < q + n :: slowCases[j].to == Start(code, k))
        && (q + n < Before(code, sse2, k + 1) ==> OneByOne(code[k]))
        && (OneByOne(code[k]) ==> !IsPropertyAccess(code[k].op) && !IsCall(code[k].op))
      ensures k + 1 < |code| && Start(code, k + 1) in labels
    {
      hide Planted;
      OtherPlantsNothing(code[k], sse2);
      assert NotesOf(slowCases, code, sse2, k);
    }

    lemma SkipAhead(k: nat, q: nat) returns (next: nat)
      requires Consuming(k, q) && k <= |code| && Before(code, sse2, k) == q <= Before(code, sse2, |code|)
      ensures next <= |code| && Before(code, sse2, next) == q && Consuming(next, q) && (next < |code| ==> Planted(code[next], sse2) > 0)
    {
      hide Planted, OneByOne, Sites, ColdPlaced;
      next := SkipSilent(code, sse2, k, q);
    }

    lemma EndReached(k: nat, q: nat)
      requires Consuming(k, q) && q == Before(code, sse2, |code|)
      ensures ColdDone(|code|)
      ensures forall j | 0 <= j < |code| && Planted(code[j], sse2) > 0 :: ResumesAfter(j)
    {
      hide Planted, OneByOne, Sites;
      if k < |code| { BeforeMonotone(code, sse2, k + 1, |code|); }
      var next := SkipSilent(code, sse2, k, q);
      if next < |code| { BeforeMonotone(code, sse2, next + 1, |code|); }
    }

    lemma Started()
      requires Wellformed() && MainPassDone()
      requires callReturnLocation == coldCallReturn == coldCallOther == [] && done == {} && linked == map[] && resumes == map[]
      ensures Tied() && NotesReady() && Increasing(callReturnLocation, size) && Consuming(0, 0)
      ensures |slowCases| == Before(code, sse2, |code|)
    {
    }

    lemma Consumption(k: nat, q: nat)
      requires Consuming(k, q) && q < Before(code, sse2, |code|)
      ensures k < |code| && q > Before(code, sse2, k) ==> Planted(code[k], sse2) > 0
      ensures k <= |code| && (q == Before(code, sse2, k) || (k < |code| && Before(code, sse2, k) < q < Before(code, sse2, k + 1) && OneByOne(code[k])))
      ensures ColdDone(k) && |callReturnLocation| == Rank(code, Access, k)
      ensures forall j | 0 <= j < k && Planted(code[j], sse2) > 0 :: Start(code, j) in resumes && resumes[Start(code, j)] == Start(code, j + 1)
    {
      hide Planted, Sites, Start, ColdPlaced;
    }

    /** After a visit. */
    lemma VisitCounted(k: nat, q: nat, resumed: map<nat, nat>) returns (next: nat)
      requires k < |code| && Planted(code[k], sse2) > 0 && Before(code, sse2, k) < q <= Before(code, sse2, k + 1)
      requires q < Before(code, sse2, k + 1) ==> OneByOne(code[k])
      requires OneByOne(code[k]) ==> !IsPropertyAccess(code[k].op) && !IsCall(code[k].op)
      requires ColdDone(k + 1)
      requires forall j | 0 <= j < k && Planted(code[j], sse2) > 0 :: Start(code, j) in resumed && resumed[Start(code, j)] == Start(code, j + 1)
      requires resumes == resumed[Start(code, k) := Start(code, k + 1)]
      ensures Consuming(next, q)
    {
      hide Planted, OneByOne, IsPropertyAccess, IsCall, Before, Start, ColdPlaced;
      next := if q == Before(code, sse2, k + 1) then k + 1 else k;
      forall j | 0 <= j < k ensures Start(code, j) < Start(code, k) { StartMonotone(code, j, k); }
    }

    /** What a visit notes. */
    twostate lemma ColdVisited(k: nat)
      requires k < |code| && old(ColdDone(k))
      requires Noted(old(callReturnLocation), callReturnLocation, IsPropertyAccess(code[k].op), old(size), size)
      requires BothNoted(old(coldCallReturn), old(coldCallOther), coldCallReturn, coldCallOther, IsCall(code[k].op), old(size), size)
      requires outOfLine == old(outOfLine)[Start(code, k) := Extent(old(size), size)]
      ensures ColdDone(k + 1)
    {
      hide ColdPlaced, IsPropertyAccess, IsCall, Start;
      ColdKept(code, Access, old(outOfLine), old(callReturnLocation), k, old(size), callReturnLocation, size);
      ColdKept(code, CallSite, old(outOfLine), old(coldCallReturn), k, old(size), coldCallReturn, size);
      ColdKept(code, CallSite, old(outOfLine), old(coldCallOther), k, old(size), coldCallOther, size);
    }

    method PrivateCompileSlowCases()
      requires Wellformed() && MainPassDone()
      requires callReturnLocation == coldCallReturn == coldCallOther == [] && done == {} && linked == map[] && resumes == map[]
      modifies this`linked, this`done, this`size, this`callReturnLocation, this`coldCallReturn, this`coldCallOther, this`resumes, this`outOfLine, this`first, this`mine, this`earlier
      ensures SlowCasesDone()
    {
      hide *;
      Started();
      var iter: nat := 0;
      ghost var k: nat := 0;
      while iter != |slowCases|
        invariant iter <= |slowCases| && Tied() && NotesReady() && Increasing(callReturnLocation, size) && Consuming(k, iter)
        invariant forall j | 0 <= j < iter :: j in done
        decreases |slowCases| - iter
      {
        Consumption(k, iter);
        if iter == Before(code, sse2, k) { k := SkipAhead(k, iter); Consumption(k, iter); }
        NextVisit(k, iter);
        ghost var locations, resumed, size' := callReturnLocation, resumes, size;
        label visit:
        iter := CompileSlowCase(iter, k);
        iter := iter + 1;
        ColdVisited@visit(k);
        StillIncreasing(locations, size', callReturnLocation, size, IsPropertyAccess(code[k].op));
        k := VisitCounted(k, iter, resumed);
      }
      EndReached(k, iter);
      AllLinked();
    }

    lemma AllLinked()
      requires Wellformed() && Tied() && Increasing(callReturnLocation, size)
      requires forall j | 0 <= j < |slowCases| :: j in done
      requires ColdDone(|code|)
      requires forall j | 0 <= j < |code| && Planted(code[j], sse2) > 0 :: ResumesAfter(j)
      ensures SlowCasesDone()
    {
      hide Planted, ColdDone, ResumesAfter, Flattened, Increasing;
    }

    /** Each property access has a record, which leads from the code that the slow pass
        assembled for the access to the code that the main pass assembled for it. */
    ghost predicate StubsPlaced(stubInfos: seq<StructureStubInfo>, base: nat)
      reads this`labels, this`outOfLine, this`patchable
    {
      && |stubInfos| == |propertyAccessInstructions|
      && forall k | 0 <= k < |code| && IsPropertyAccess(code[k].op) :: StubPlaced(stubInfos, base, k)
    }

    ghost predicate StubPlaced(stubInfos: seq<StructureStubInfo>, base: nat, k: nat)
      requires k < |code|
      reads this`labels, this`outOfLine, this`patchable
    {
      var n := Rank(code, Access, k);
      && n < |stubInfos| && n < |patchable| && stubInfos[n].opcodeIndex == Start(code, k)
      && InLine(k, stubInfos[n].hotPathBegin - base) && InLine(k, patchable[n].offset)
      && stubInfos[n].hotPathBegin >= base && AtOffsets(patchable[n], stubInfos[n].hotPathBegin - base)
      && OutOfLine(k, stubInfos[n].callReturnLocation - base)
    }

    /** The same for calls. */
    ghost predicate LinksPlaced(linkInfos: seq<CallLinkInfo>, base: nat)
      reads this`labels, this`outOfLine, this`linkable
    {
      && |linkInfos| == callLinkInfos
      && forall k | 0 <= k < |code| && IsCall(code[k].op) :: LinkPlaced(linkInfos, base, k)
    }

    ghost predicate LinkPlaced(linkInfos: seq<CallLinkInfo>, base: nat, k: nat)
      requires k < |code|
      reads this`labels, this`outOfLine, this`linkable
    {
      var n := Rank(code, CallSite, k);
      && n < |linkInfos| && n < |linkable| && linkInfos[n].hotPathBegin >= base && LinkedAt(linkable[n], linkInfos[n].hotPathBegin - base)
      && base + linkable[n].branch < linkInfos[n].hotPathOther && linkInfos[n].callReturnLocation < linkInfos[n].coldPathOther
      && InLine(k, linkInfos[n].hotPathBegin - base) && InLine(k, linkInfos[n].hotPathOther - base)
      && OutOfLine(k, linkInfos[n].callReturnLocation - base) && OutOfLine(k, linkInfos[n].coldPathOther - base)
    }

    /** Both passes, and the records by which the runtime finds an access again from the
        address its slow call returns to, and a call from its slow code.  `base` is where
        the code is copied to. */
    method PrivateCompile(base: nat) returns (stubInfos: seq<StructureStubInfo>, linkInfos: seq<CallLinkInfo>)
      requires Wellformed() && slowCases == [] && hotPathBegin == hotCallBegin == hotCallOther == [] && patchable == [] && linkable == []
      requires callReturnLocation == coldCallReturn == coldCallOther == [] && done == {} && linked == map[] && resumes == map[]
      modifies this
      ensures SlowCasesDone() && NotesReady()
      ensures StubsOrdered(stubInfos) && StubsPlaced(stubInfos, base) && LinksPlaced(linkInfos, base)
    {
      hide *;
      PrivateCompileMainPass();
      Ready();
      PrivateCompileSlowCases();
      Counted();
      stubInfos, linkInfos := [], [];
      for k := 0 to |propertyAccessInstructions|
        invariant |stubInfos| == k
        invariant forall j | 0 <= j < k ::
          stubInfos[j] == StructureStubInfo(propertyAccessInstructions[j], base + callReturnLocation[j], base + hotPathBegin[j])
      {
        stubInfos := stubInfos + [StructureStubInfo(propertyAccessInstructions[k], base + callReturnLocation[k], base + hotPathBegin[k])];
      }
      for k := 0 to callLinkInfos
        invariant |linkInfos| == k
        invariant forall j | 0 <= j < k ::
          linkInfos[j] == CallLinkInfo(base + coldCallReturn[j], base + hotCallBegin[j], base + hotCallOther[j], base + coldCallOther[j])
      {
        linkInfos := linkInfos + [CallLinkInfo(base + coldCallReturn[k], base + hotCallBegin[k], base + hotCallOther[k], base + coldCallOther[k])];
      }
      StubsRight(stubInfos, base);
      LinksRight(linkInfos, base);
    }

    lemma Ready()
      requires MainPassDone()
      ensures NotesReady() && HotPlaced()
    {
    }

    lemma Counted()
      requires Wellformed() && HotPlaced() && SlowCasesDone()
      ensures |propertyAccessInstructions| == |callReturnLocation| == |hotPathBegin|
      ensures callLinkInfos == |coldCallReturn| == |coldCallOther| == |hotCallBegin| == |hotCallOther|
    {
    }

    lemma StubsRight(stubInfos: seq<StructureStubInfo>, base: nat)
      requires Wellformed() && HotPlaced() && SlowCasesDone() && |stubInfos| == |propertyAccessInstructions|
      requires |callReturnLocation| == |hotPathBegin| == |stubInfos|
      requires forall j | 0 <= j < |stubInfos| ::
        stubInfos[j] == StructureStubInfo(propertyAccessInstructions[j], base + callReturnLocation[j], base + hotPathBegin[j])
      ensures StubsOrdered(stubInfos) && StubsPlaced(stubInfos, base)
    {
      hide Start, Sites, Planted, ResumesAfter, Flattened, InLine;
      forall k | 0 <= k < |code| && IsPropertyAccess(code[k].op) ensures StubPlaced(stubInfos, base, k) {
        AccessHere(k);
        assert AccessPlaced(k) && Is(Access, code[k].op) && ColdPlaceOf(code, Access, outOfLine, callReturnLocation, k);
      }
    }

    lemma LinksRight(linkInfos: seq<CallLinkInfo>, base: nat)
      requires Wellformed() && HotPlaced() && SlowCasesDone() && |linkInfos| == callLinkInfos
      requires |coldCallReturn| == |coldCallOther| == |hotCallBegin| == |hotCallOther| == |linkInfos|
      requires forall j | 0 <= j < |linkInfos| ::
        linkInfos[j] == CallLinkInfo(base + coldCallReturn[j], base + hotCallBegin[j], base + hotCallOther[j], base + coldCallOther[j])
      ensures LinksPlaced(linkInfos, base)
    {
      hide Start, Sites, Planted, ResumesAfter, Flattened, InLine;
      forall k | 0 <= k < |code| && IsCall(code[k].op) ensures LinkPlaced(linkInfos, base, k) {
        assert CallPlaced(k) && Is(CallSite, code[k].op);
        assert ColdPlaceOf(code, CallSite, outOfLine, coldCallReturn, k) && ColdPlaceOf(code, CallSite, outOfLine, coldCallOther, k);
      }
    }

    /** Patching for a property of the object itself: from the address that the slow call of
        access `k` returns to, the runtime comes to the structure and the offset in the code
        of access `k`. */
    method PatchSelf(stubInfos: seq<StructureStubInfo>, base: nat, returnAddress: nat, ghost k: nat) returns (structureID: nat, offset: nat)
      requires StubsOrdered(stubInfos) && StubsPlaced(stubInfos, base)
      requires k < |code| && IsPropertyAccess(code[k].op)
      requires returnAddress == stubInfos[Rank(code, Access, k)].callReturnLocation
      ensures OutOfLine(k, returnAddress - base) && InLine(k, structureID - base) && InLine(k, offset - base)
      ensures var own := patchable[Rank(code, Access, k)]; structureID == base + own.structureID && offset == base + own.offset
    {
      assert StubPlaced(stubInfos, base, k);
      var n := GetStubInfo(stubInfos, returnAddress);
      structureID := stubInfos[n].hotPathBegin + RepatchOffsetStructureID;
      offset := stubInfos[n].hotPathBegin + RepatchOffsetPropertyMapOffset;
    }

    /** Linking: from the record with the number of call `k`, the runtime comes to the function
        and the branch in the code of call `k`. */
    method PatchLink(linkInfos: seq<CallLinkInfo>, base: nat, index: nat, ghost k: nat) returns (function_: nat, branch: nat)
      requires LinksPlaced(linkInfos, base) && k < |code| && IsCall(code[k].op)
      requires index == Rank(code, CallSite, k) < |linkInfos|
      ensures InLine(k, function_ - base) && InLine(k, branch - base)
      ensures var own := linkable[Rank(code, CallSite, k)]; function_ == base + own.function_ && branch == base + own.branch
    {
      assert LinkPlaced(linkInfos, base, k);
      function_ := linkInfos[index].hotPathBegin;
      branch := linkInfos[index].hotPathBegin + RepatchOffsetOpCallCall;
    }
  }

  // ------------------------------------------------------------ stub lookup

  datatype CallLinkInfo = CallLinkInfo(callReturnLocation: nat, hotPathBegin: nat, hotPathOther: nat, coldPathOther: nat)

  datatype StructureStubInfo = StructureStubInfo(opcodeIndex: nat, callReturnLocation: nat, hotPathBegin: nat)

  predicate StubsOrdered(stubInfos: seq<StructureStubInfo>) {
    forall p, q | 0 <= p < q < |stubInfos| :: stubInfos[p].callReturnLocation < stubInfos[q].callReturnLocation
  }

  /** Chops the part of the table that can hold the key until one record is left, without
      looking at that one. */
  method GetStubInfo(stubInfos: seq<StructureStubInfo>, returnAddress: nat) returns (k: nat)
    requires StubsOrdered(stubInfos)
    requires exists j :: 0 <= j < |stubInfos| && stubInfos[j].callReturnLocation == returnAddress
    ensures k < |stubInfos| && stubInfos[k].callReturnLocation == returnAddress
    ensures forall j | 0 <= j < |stubInfos| && stubInfos[j].callReturnLocation == returnAddress :: j == k
  {
    var array_: nat, size: nat := 0, |stubInfos|;
    ghost var sought :| 0 <= sought < |stubInfos| && stubInfos[sought].callReturnLocation == returnAddress;
    while size > 1
      invariant array_ <= sought < array_ + size <= |stubInfos|
      decreases size
    {
      var pos := (size - 1) / 2;
      var val := stubInfos[array_ + pos].callReturnLocation;
      if val == returnAddress {
        return array_ + pos;
      } else if returnAddress < val {
        size := pos;
      } else {
        size := size - (pos + 1);
        array_ := array_ + (pos + 1);
      }
    }
    k := array_;
  }
}
