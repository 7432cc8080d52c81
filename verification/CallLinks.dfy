/** Linking call sites to the functions they call.

    A linked site holds the function it expects in its code; the code block of that
    function lists the sites linked to it so that they can be reset before the function
    or its code goes away. */
module CallLinks {

  class JSFunction {
    const body: CodeBlock

    constructor (body: CodeBlock)
      ensures this.body == body
    {
      this.body := body;
    }
  }

  class CallLinkInfo {
    const argCount: nat
    var callee: CodeBlock?           // null: not linked
    var position: nat
    var expected: JSFunction?        // embedded in the code; null: the impossible value
    var target: CodeBlock?           // whose code the fast path calls
    var tried: bool                  // the way to the linking code has been patched away

    constructor (argCount: nat)
      ensures this.argCount == argCount && callee == null && expected == null && target == null && !tried
    {
      this.argCount := argCount;
      callee, expected, target := null, null, null;
      position, tried := 0, false;
    }

    predicate IsLinked()
      reads this
    {
      callee != null
    }

    method SetUnlinked()
      modifies this`callee
      ensures callee == null
    {
      callee := null;
    }
  }

  /** Each listed site knows its position, so no site is listed twice. */
  ghost predicate PositionsRight(callers: seq<CallLinkInfo>)
    reads callers
  {
    forall k | 0 <= k < |callers| :: callers[k].position == k
  }

  class CodeBlock {
    const numParameters: nat
    const callLinkInfos: seq<CallLinkInfo>
    var linkedCallerList: seq<CallLinkInfo>

    constructor (numParameters: nat, callLinkInfos: seq<CallLinkInfo>)
      ensures this.numParameters == numParameters && this.callLinkInfos == callLinkInfos && linkedCallerList == []
    {
      this.numParameters, this.callLinkInfos := numParameters, callLinkInfos;
      linkedCallerList := [];
    }

    method AddCaller(caller: CallLinkInfo)
      requires PositionsRight(linkedCallerList) && caller !in linkedCallerList
      modifies this`linkedCallerList, caller`callee, caller`position
      ensures caller.callee == this && linkedCallerList == old(linkedCallerList) + [caller]
      ensures PositionsRight(linkedCallerList)
    {
      caller.callee := this;
      caller.position := |linkedCallerList|;
      linkedCallerList := linkedCallerList + [caller];
    }

    /** The last caller moves into the gap. */
    method RemoveCaller(caller: CallLinkInfo)
      requires PositionsRight(linkedCallerList)
      requires caller.position < |linkedCallerList| && linkedCallerList[caller.position] == caller
      modifies this`linkedCallerList, linkedCallerList`position
      ensures PositionsRight(linkedCallerList) && |linkedCallerList| == |old(linkedCallerList)| - 1
      ensures forall s :: s in linkedCallerList <==> s in old(linkedCallerList) && s != caller
    {
      var pos := caller.position;
      var lastPos := |linkedCallerList| - 1;
      ghost var was := linkedCallerList;
      if pos != lastPos {
        linkedCallerList := linkedCallerList[pos := linkedCallerList[lastPos]];
        linkedCallerList[pos].position := pos;
      }
      linkedCallerList := linkedCallerList[..lastPos];
      forall s ensures s in linkedCallerList <==> s in was && s != caller {
        if s in was && s != caller {
          var k :| 0 <= k < |was| && was[k] == s;
          assert k == lastPos ==> linkedCallerList[pos] == s;
          assert k < lastPos ==> linkedCallerList[k] == s;
        }
      }
    }

    /** Resets every site linked to this block. */
    method UnlinkCallers()
      requires PositionsRight(linkedCallerList)
      modifies this`linkedCallerList, linkedCallerList`callee, linkedCallerList`expected
      ensures linkedCallerList == []
      ensures forall s | s in old(linkedCallerList) :: s.callee == null && s.expected == null
    {
      var size := |linkedCallerList|;
      for i := 0 to size
        invariant linkedCallerList == old(linkedCallerList)
        invariant forall k | 0 <= k < i :: linkedCallerList[k].callee == null && linkedCallerList[k].expected == null
      {
        var currentCaller := linkedCallerList[i];
        UnlinkCall(currentCaller);
        currentCaller.SetUnlinked();
      }
      linkedCallerList := [];
    }
  }

  /** The embedded function can no longer match. */
  method UnlinkCall(callLinkInfo: CallLinkInfo)
    modifies callLinkInfo`expected
    ensures callLinkInfo.expected == null
  {
    callLinkInfo.expected := null;
  }

  /** Links a site whose argument count fits; in any case it is not tried again. */
  method LinkCall(callee: JSFunction, calleeCodeBlock: CodeBlock, callLinkInfo: CallLinkInfo, callerArgCount: nat)
    requires PositionsRight(calleeCodeBlock.linkedCallerList) && callLinkInfo !in calleeCodeBlock.linkedCallerList
    requires !callLinkInfo.IsLinked()
    modifies calleeCodeBlock`linkedCallerList, callLinkInfo
    ensures callLinkInfo.tried && PositionsRight(calleeCodeBlock.linkedCallerList)
    ensures callerArgCount == calleeCodeBlock.numParameters ==>
      && callLinkInfo.callee == callLinkInfo.target == calleeCodeBlock && callLinkInfo.expected == callee
      && calleeCodeBlock.linkedCallerList == old(calleeCodeBlock.linkedCallerList) + [callLinkInfo]
    ensures callerArgCount != calleeCodeBlock.numParameters ==>
      && callLinkInfo.callee == null && callLinkInfo.expected == old(callLinkInfo.expected)
      && calleeCodeBlock.linkedCallerList == old(calleeCodeBlock.linkedCallerList)
  {
    if callerArgCount == calleeCodeBlock.numParameters {
      calleeCodeBlock.AddCaller(callLinkInfo);
      callLinkInfo.expected := callee;
      callLinkInfo.target := calleeCodeBlock;
    }
    callLinkInfo.tried := true;
  }

  /** The code blocks and functions that are alive. */
  class Heap {
    var blocks: set<CodeBlock>
    var functions: set<JSFunction>
    ghost var sites: set<CallLinkInfo>     // of the live blocks

    /** What a site holds is alive, lists it, and fits it. */
    ghost predicate SiteLinked(s: CallLinkInfo)
      reads this, blocks, s
    {
      if s.callee == null then s.expected == null
      else
        && s.callee in blocks && s.tried && s.target == s.callee
        && s.argCount == s.callee.numParameters
        && s.position < |s.callee.linkedCallerList| && s.callee.linkedCallerList[s.position] == s
        && s.expected != null && s.expected in functions && s.expected.body == s.callee
    }

    /** The listed callers are sites of live blocks, linked here, each at its position. */
    ghost predicate CallersLinked(b: CodeBlock)
      reads this, b, sites
    {
      forall k | 0 <= k < |b.linkedCallerList| ::
        var s := b.linkedCallerList[k];
        s in sites && s.position == k && s.callee == b
    }

    /** The links are consistent. */
    ghost predicate Linked()
      reads this, blocks, sites
    {
      && (forall f | f in functions :: f.body in blocks)
      && (forall s | s in sites :: SiteLinked(s))
      && (forall b | b in blocks :: CallersLinked(b))
    }

    /** The sites are exactly those of the live blocks, each in one place. */
    ghost predicate SitesOwned()
      reads this
    {
      && (forall b, k | b in blocks && 0 <= k < |b.callLinkInfos| :: b.callLinkInfos[k] in sites)
      && (forall b, c, j, k | b in blocks && c in blocks && 0 <= j < |b.callLinkInfos| && 0 <= k < |c.callLinkInfos|
                              && b.callLinkInfos[j] == c.callLinkInfos[k] :: b == c && j == k)
    }

    ghost predicate Valid()
      reads this, blocks, sites
    {
      SitesOwned() && Linked()
    }

    constructor ()
      ensures Valid() && blocks == {} && functions == {} && sites == {}
    {
      blocks, functions, sites := {}, {}, {};
    }

    /** A site that is not linked is in no list. */
    lemma UnlinkedUnlisted(s: CallLinkInfo, b: CodeBlock)
      requires Linked() && s in sites && s.callee != b && b in blocks
      ensures s !in b.linkedCallerList
    {
      assert CallersLinked(b);
    }

    /** A live site that holds a function holds a live one, is in exactly one list, at its
        recorded position, and passes as many arguments as the function's code takes. */
    lemma EmbeddedFunctionAlive(s: CallLinkInfo)
      requires Valid() && s in sites && s.expected != null
      ensures s.expected in functions && s.callee == s.target == s.expected.body && s.callee in blocks
      ensures s.argCount == s.callee.numParameters
      ensures forall b, k | b in blocks && 0 <= k < |b.linkedCallerList| ::
        b.linkedCallerList[k] == s <==> b == s.callee && k == s.position
      ensures s.position < |s.callee.linkedCallerList| && s.callee.linkedCallerList[s.position] == s
    {
      assert SiteLinked(s);
      forall b, k | b in blocks && 0 <= k < |b.linkedCallerList| && b.linkedCallerList[k] == s
        ensures b == s.callee && k == s.position
      {
        assert CallersLinked(b);
      }
    }

    method NewFunction(body: CodeBlock) returns (f: JSFunction)
      requires Valid() && body in blocks
      modifies this`functions
      ensures Valid() && functions == old(functions) + {f} && fresh(f) && f.body == body
    {
      f := new JSFunction(body);
      functions := functions + {f};
    }

    /** Reached from a call site the first time it is executed. */
    method LazyLinkCall(callee: JSFunction, site: CallLinkInfo)
      requires Valid() && callee in functions && site in sites && !site.tried
      modifies callee.body`linkedCallerList, site
      ensures Valid() && site.tried
      ensures site.callee == if site.argCount == callee.body.numParameters then callee.body else null
    {
      var codeBlock := callee.body;
      assert SiteLinked(site);
      assert CallersLinked(codeBlock);
      UnlinkedUnlisted(site, codeBlock);
      LinkCall(callee, codeBlock, site, site.argCount);
      assert site.callee != null ==> codeBlock.linkedCallerList[|old(codeBlock.linkedCallerList)|] == site;
      forall s | s in sites ensures SiteLinked(s) {
        if s != site { assert old(SiteLinked(s)); }
      }
      forall b | b in blocks ensures CallersLinked(b) {
        if b != codeBlock {
          assert old(CallersLinked(b));
        }
      }
    }

    /** Executes a call of `f`: whose code runs, and whether the embedded check matched. */
    method ExecuteCall(f: JSFunction, site: CallLinkInfo) returns (code: CodeBlock, fast: bool)
      requires Valid() && f in functions && site in sites
      modifies f.body`linkedCallerList, site
      ensures Valid() && code == f.body
      ensures fast ==> site.argCount == f.body.numParameters && site in f.body.linkedCallerList
      ensures site.tried || fast
    {
      assert SiteLinked(site);
      if site.expected == f {
        return site.target, true;
      }
      if !site.tried {
        LazyLinkCall(f, site);
      }
      return f.body, false;
    }

    /** The destructor of a function resets every site linked to its code. */
    method DestroyFunction(f: JSFunction)
      requires Valid() && f in functions
      modifies this`functions, f.body`linkedCallerList, f.body.linkedCallerList`callee, f.body.linkedCallerList`expected
      ensures Valid() && functions == old(functions) - {f}
      ensures forall s | s in sites :: s.expected != f && s.callee != f.body
    {
      var body := f.body;
      assert CallersLinked(body);
      body.UnlinkCallers();
      functions := functions - {f};
      forall s | s in sites ensures SiteLinked(s) && s.callee != body && s.expected != f {
        assert old(SiteLinked(s));
        assert old(s.callee) == body ==> s in old(body.linkedCallerList);
      }
      forall b | b in blocks ensures CallersLinked(b) {
        assert old(CallersLinked(b));
        if b != body {
          forall k | 0 <= k < |b.linkedCallerList| ensures b.linkedCallerList[k].callee == b {
            assert b.linkedCallerList[k] !in old(body.linkedCallerList);
          }
        }
      }
    }

    /** A site of a dying block leaves the list it is in. */
    method RemoveSite(site: CallLinkInfo)
      requires Linked() && site in sites
      modifies this`sites, blocks`linkedCallerList, sites`position
      ensures Linked() && sites == old(sites) - {site}
      ensures forall c | c in blocks :: |c.linkedCallerList| <= |old(c.linkedCallerList)|
    {
      assert SiteLinked(site);
      if site.IsLinked() {
        var callee := site.callee;
        assert CallersLinked(callee);
        callee.RemoveCaller(site);
        sites := sites - {site};
        forall s | s in sites ensures SiteLinked(s) {
          assert old(SiteLinked(s));
          if s.callee == callee {
            assert s in old(callee.linkedCallerList);
            var k :| 0 <= k < |callee.linkedCallerList| && callee.linkedCallerList[k] == s;
          }
        }
        forall b | b in blocks ensures CallersLinked(b) {
          assert old(CallersLinked(b));
          if b == callee {
            forall k | 0 <= k < |b.linkedCallerList| ensures b.linkedCallerList[k] in sites && b.linkedCallerList[k].callee == b {
              assert b.linkedCallerList[k] in old(callee.linkedCallerList);
            }
          } else {
            forall k | 0 <= k < |b.linkedCallerList| ensures b.linkedCallerList[k] in sites && b.linkedCallerList[k].position == k {
              assert b.linkedCallerList[k] !in old(callee.linkedCallerList);
            }
          }
        }
      } else {
        sites := sites - {site};
      }
    }

    /** A block is only called through a function that runs it. */
    lemma CalledThroughFunction(b: CodeBlock)
      requires Linked() && b in blocks && b.linkedCallerList != []
      ensures exists f :: f in functions && f.body == b
    {
      var s := b.linkedCallerList[0];
      assert CallersLinked(b);
      assert SiteLinked(s);
    }

    method RemoveSites(b: CodeBlock)
      requires Valid() && b in blocks
      modifies this`sites, blocks`linkedCallerList, sites`position
      ensures Linked() && sites == old(sites) - set k | 0 <= k < |b.callLinkInfos| :: b.callLinkInfos[k]
      ensures forall c | c in blocks :: |c.linkedCallerList| <= |old(c.linkedCallerList)|
    {
      hide Linked;
      for i := 0 to |b.callLinkInfos|
        invariant Linked() && sites == old(sites) - set k | 0 <= k < i :: b.callLinkInfos[k]
        invariant forall c | c in blocks :: |c.linkedCallerList| <= |old(c.linkedCallerList)|
      {
        RemoveSite(b.callLinkInfos[i]);
      }
    }

    /** The destructor of a code block; the functions that run it are gone by then. */
    method DestroyBlock(b: CodeBlock)
      requires Valid() && b in blocks && forall f | f in functions :: f.body != b
      modifies this`blocks, this`sites, blocks`linkedCallerList, sites`position, sites`callee, sites`expected
      ensures Valid() && blocks == old(blocks) - {b}
      ensures forall s | s in sites :: s !in b.callLinkInfos && s.callee != b
      ensures forall c, s | c in blocks && s in c.linkedCallerList :: s !in b.callLinkInfos
    {
      if b.linkedCallerList != [] { CalledThroughFunction(b); }
      RemoveSites(b);
      b.UnlinkCallers();
      UnlistedUncalled(b);
      ForgetBlock(b);
    }

    lemma UnlistedUncalled(b: CodeBlock)
      requires Linked() && b.linkedCallerList == []
      ensures forall s | s in sites :: s.callee != b
    {
      forall s | s in sites ensures s.callee != b {
        assert SiteLinked(s);
      }
    }

    method ForgetBlock(b: CodeBlock)
      requires Linked() && forall f | f in functions :: f.body != b
      requires forall s | s in sites :: s.callee != b
      modifies this`blocks
      ensures Linked() && blocks == old(blocks) - {b}
    {
      blocks := blocks - {b};
      forall s | s in sites ensures SiteLinked(s) {
        assert old(SiteLinked(s));
      }
      forall c | c in blocks ensures CallersLinked(c) {
        assert old(CallersLinked(c));
      }
    }

    /** Adds a block with unlinked sites. */
    method NewBlock(numParameters: nat, argCounts: seq<nat>) returns (b: CodeBlock)
      requires Valid()
      modifies this`blocks, this`sites
      ensures Valid() && blocks == old(blocks) + {b} && fresh(b) && b.numParameters == numParameters
      ensures |b.callLinkInfos| == |argCounts| && forall k | 0 <= k < |argCounts| :: b.callLinkInfos[k].argCount == argCounts[k]
    {
      var infos := NewSites(argCounts);
      b := new CodeBlock(numParameters, infos);
      blocks := blocks + {b};
      sites := sites + set k | 0 <= k < |infos| :: infos[k];
    }
  }

  method NewSites(argCounts: seq<nat>) returns (infos: seq<CallLinkInfo>)
    ensures |infos| == |argCounts|
    ensures forall k | 0 <= k < |infos| ::
      fresh(infos[k]) && infos[k].argCount == argCounts[k] && infos[k].callee == null && infos[k].expected == null
    ensures forall j, k | 0 <= j < k < |infos| :: infos[j] != infos[k]
  {
    infos := [];
    for i := 0 to |argCounts|
      invariant |infos| == i
      invariant forall k | 0 <= k < i ::
        fresh(infos[k]) && infos[k].argCount == argCounts[k] && infos[k].callee == null && infos[k].expected == null
      invariant forall j, k | 0 <= j < k < i :: infos[j] != infos[k]
    {
      var info := new CallLinkInfo(argCounts[i]);
      infos := infos + [info];
    }
  }
}
