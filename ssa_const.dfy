/**
 * The SSA renaming engine of Scalpel (`src/scalpel/SSA/const.py`, class `SSA`):
 * phi placement at dominance frontiers, per-name version numbering of stores,
 * loads and phi targets, the search through predecessor blocks for the
 * versions a phi merges, and the choice of a globally unique variable name.
 *
 * The control-flow graph reaches this module as plain values: a block is its
 * id, its statements are reduced to the names each one stores and loads (the
 * output of the statement analysis), and its incoming edges are `Link`s.
 */
module SsaConst {
  import opened Common

  type BlockId = int

  /** An edge of the control-flow graph, from `source` into `target`. */
  datatype Link = Link(source: BlockId, target: BlockId)

  /** The names one statement stores and loads, in the order they occur. */
  datatype StmtIdents = StmtIdents(stored: seq<string>, loaded: seq<string>)

  /** The control-flow graph as the renaming pass reads it. */
  datatype Cfg = Cfg(
    blocks: seq<BlockId>,                  // every block, in the graph's order
    stmts: map<BlockId, seq<StmtIdents>>,  // per block, per statement
    preds: map<BlockId, seq<Link>>)        // per block, its incoming edges

  /** A phi target: the name it defines and the version it gets. */
  datatype PhiDef = PhiDef(name: string, version: int)

  /** The versions a phi merges for `name`, one per reaching definition. */
  datatype PhiUse = PhiUse(name: string, versions: seq<int>)

  /** The four tables the renaming returns, keyed by block id. */
  datatype SsaTables = SsaTables(
    renamedStored: map<BlockId, seq<map<string, int>>>,
    renamedLoaded: map<BlockId, seq<map<string, set<int>>>>,
    phiStored: map<BlockId, seq<PhiDef>>,
    phiLoaded: map<BlockId, seq<PhiUse>>)

  // ---------------------------------------------------------------------------
  // Globally unique names

  /** The `k`-th name tried for `v`: `v` itself, then `v_2`, `v_3`, and so on. */
  function Candidate(v: string, k: nat): string
    requires k >= 1
  {
    if k == 1 then v else v + "_" + NatToString(k)
  }

  lemma CandidateInjective(v: string, i: nat, j: nat)
    requires i >= 1 && j >= 1
    ensures Candidate(v, i) == Candidate(v, j) <==> i == j
  {
    if i >= 2 && j >= 2 {
      if Candidate(v, i) == Candidate(v, j) {
        SuffixedNameInjective(v, i, v, j);
      }
    } else if i != j {
      assert |Candidate(v, i)| != |Candidate(v, j)|;
    }
  }

  /**
   * The first candidate name for `varName` that is not in `usedVarNames`:
   * the name itself when it is free, otherwise the smallest free `varName_k`
   * with `k >= 2`.
   */
  method GetGlobalUniqueName(varName: string, usedVarNames: seq<string>) returns (name: string)
    ensures name !in usedVarNames
    ensures varName !in usedVarNames ==> name == varName
    ensures exists k: nat :: k >= 1 && name == Candidate(varName, k) &&
              forall j: nat :: 1 <= j < k ==> Candidate(varName, j) in usedVarNames
  {
    var idx: nat := 2;
    var appendix := "";
    ghost var tried: seq<string> := [];
    assert varName + appendix == Candidate(varName, 1);
    while varName + appendix in usedVarNames
      invariant idx >= 2
      invariant varName + appendix == Candidate(varName, idx - 1)
      invariant |tried| == idx - 2 && |tried| <= |Elems(usedVarNames)|
      invariant Taken(varName, usedVarNames, tried)
      decreases |Elems(usedVarNames)| - |tried|
    {
      TriedExtend(varName, usedVarNames, tried, idx - 1);
      tried := tried + [varName + appendix];
      appendix := "_" + NatToString(idx);
      assert varName + appendix == Candidate(varName, idx);
      idx := idx + 1;
    }
    name := varName + appendix;
    FirstFree(varName, usedVarNames, tried, idx - 1);
    assert name == Candidate(varName, idx - 1);
  }

  /** `tried` lists the first candidates for `v`, in order, all of them used
      and no two alike. */
  ghost predicate Taken(v: string, used: seq<string>, tried: seq<string>)
  {
    (forall t :: 0 <= t < |tried| ==> tried[t] == Candidate(v, t + 1)) &&
    (forall x :: x in tried ==> x in used) &&
    NoDuplicates(tried)
  }

  /** One more taken candidate extends the list of taken names, which stays
      no longer than the set of used names. */
  lemma TriedExtend(v: string, used: seq<string>, tried: seq<string>, k: nat)
    requires k >= 1 && |tried| == k - 1
    requires Taken(v, used, tried) && Candidate(v, k) in used
    ensures Taken(v, used, tried + [Candidate(v, k)]) && |tried + [Candidate(v, k)]| <= |Elems(used)|
  {
    var c := Candidate(v, k);
    forall t | 0 <= t < |tried| ensures tried[t] != c {
      CandidateInjective(v, t + 1, k);
    }
    var tried' := tried + [c];
    assert forall t :: 0 <= t < |tried| ==> tried'[t] == tried[t];
    DistinctWithin(tried', Elems(used));
  }

  /** Every candidate before the `k`-th is among the taken ones, so used. */
  lemma FirstFree(v: string, used: seq<string>, tried: seq<string>, k: nat)
    requires k >= 1 && |tried| == k - 1 && Taken(v, used, tried)
    ensures forall j: nat :: 1 <= j < k ==> Candidate(v, j) in used
  {
    forall j: nat | 1 <= j < k ensures Candidate(v, j) in used {
      assert tried[j - 1] == Candidate(v, j);
    }
  }

  // ---------------------------------------------------------------------------
  // Phi placement

  /** The names the statements of one block store, in order. */
  function StmtDefs(stmts: seq<StmtIdents>): seq<string>
  {
    if stmts == [] then [] else StmtDefs(stmts[..|stmts| - 1]) + stmts[|stmts| - 1].stored
  }

  lemma {:induction false} StmtDefsMember(stmts: seq<StmtIdents>, n: string)
    ensures n in StmtDefs(stmts) <==> exists i :: 0 <= i < |stmts| && n in stmts[i].stored
    decreases |stmts|
  {
    if stmts != [] {
      var init := stmts[..|stmts| - 1];
      StmtDefsMember(init, n);
      if n in StmtDefs(stmts) && n !in stmts[|stmts| - 1].stored {
        var i :| 0 <= i < |init| && n in init[i].stored;
        assert stmts[i] == init[i];
      }
      if exists i :: 0 <= i < |stmts| && n in stmts[i].stored {
        var i :| 0 <= i < |stmts| && n in stmts[i].stored;
        if i < |init| {
          assert init[i] == stmts[i];
        }
      }
    }
  }

  /** The names a block's statements store, gathered statement by statement. */
  method CollectStored(stored: seq<StmtIdents>) returns (affected: seq<string>)
    ensures affected == StmtDefs(stored)
  {
    affected := [];
    var i := 0;
    while i < |stored|
      invariant 0 <= i <= |stored|
      invariant affected == StmtDefs(stored[..i])
    {
      var m := 0;
      while m < |stored[i].stored|
        invariant 0 <= m <= |stored[i].stored|
        invariant affected == StmtDefs(stored[..i]) + stored[i].stored[..m]
      {
        affected := affected + [stored[i].stored[m]];
        m := m + 1;
      }
      assert stored[..i + 1][..i] == stored[..i];
      assert stored[i].stored[..m] == stored[i].stored;
      i := i + 1;
    }
    assert stored[..i] == stored;
  }

  /** Appends to the phi list of `d` each name of `affected` it lacks. */
  method AddMissing(needed: map<BlockId, seq<string>>, d: BlockId, affected: seq<string>)
    returns (needed': map<BlockId, seq<string>>)
    requires d in needed
    ensures needed'.Keys == needed.Keys
    ensures forall e :: e in needed && e != d ==> needed'[e] == needed[e]
    ensures needed[d] <= needed'[d]
    ensures NoDuplicates(needed[d]) ==> NoDuplicates(needed'[d])
    ensures forall n :: n in needed'[d] <==> n in needed[d] || n in affected
  {
    needed' := needed;
    var q := 0;
    while q < |affected|
      invariant 0 <= q <= |affected|
      invariant needed'.Keys == needed.Keys
      invariant forall e :: e in needed && e != d ==> needed'[e] == needed[e]
      invariant needed[d] <= needed'[d]
      invariant NoDuplicates(needed[d]) ==> NoDuplicates(needed'[d])
      invariant forall n :: n in needed'[d] <==> n in needed[d] || n in affected[..q]
    {
      var n := affected[q];
      if n !in needed'[d] {
        needed' := needed'[d := needed'[d] + [n]];
      }
      assert affected[..q + 1] == affected[..q] + [n];
      q := q + 1;
    }
    assert affected[..q] == affected;
  }

  /** Every name in a phi list either was there before or is stored in a block
      that has the list's block in its dominance frontier. */
  ghost predicate PlacementSound(df: map<BlockId, seq<BlockId>>, allBlocks: seq<BlockId>,
                                 phiNeeded: map<BlockId, seq<string>>,
                                 stmts: map<BlockId, seq<StmtIdents>>,
                                 needed: map<BlockId, seq<string>>)
    requires forall b :: b in allBlocks ==> b in stmts && b in df
    requires needed.Keys == phiNeeded.Keys
  {
    forall d, n :: d in needed && n in needed[d] ==>
      n in phiNeeded[d] || exists b :: b in allBlocks && d in df[b] && n in StmtDefs(stmts[b])
  }

  /**
   * `lookup_phi_placements`: every name stored anywhere in a block is added,
   * once, to the phi list of each block in that block's dominance frontier.
   * The lists only grow at their ends.
   */
  method LookupPhiPlacements(df: map<BlockId, seq<BlockId>>, allBlocks: seq<BlockId>,
                             phiNeeded: map<BlockId, seq<string>>,
                             stmts: map<BlockId, seq<StmtIdents>>)
    returns (needed: map<BlockId, seq<string>>)
    requires forall b :: b in allBlocks ==> b in stmts && b in df
    requires forall b, d :: b in allBlocks && d in df[b] ==> d in phiNeeded
    ensures needed.Keys == phiNeeded.Keys
    ensures forall d :: d in phiNeeded ==> phiNeeded[d] <= needed[d]
    ensures forall d :: d in phiNeeded && NoDuplicates(phiNeeded[d]) ==> NoDuplicates(needed[d])
    ensures forall b, d, n :: b in allBlocks && d in df[b] && n in StmtDefs(stmts[b]) ==> n in needed[d]
    ensures PlacementSound(df, allBlocks, phiNeeded, stmts, needed)
  {
    needed := phiNeeded;
    var k := 0;
    while k < |allBlocks|
      invariant 0 <= k <= |allBlocks|
      invariant Grows(phiNeeded, needed)
      invariant forall j :: 0 <= j < k ==> Placed(df, stmts, needed, allBlocks[j])
      invariant PlacementSound(df, allBlocks, phiNeeded, stmts, needed)
    {
      ghost var before := needed;
      needed := PlaceBlockDefs(df, allBlocks, phiNeeded, stmts, needed, allBlocks[k]);
      GrowsTransitive(phiNeeded, before, needed);
      forall j | 0 <= j < k
        ensures Placed(df, stmts, needed, allBlocks[j])
      {
        assert Placed(df, stmts, before, allBlocks[j]);
      }
      k := k + 1;
    }
    forall b, d, n | b in allBlocks && d in df[b] && n in StmtDefs(stmts[b])
      ensures n in needed[d]
    {
      var j :| 0 <= j < |allBlocks| && allBlocks[j] == b;
      assert Placed(df, stmts, needed, allBlocks[j]);
    }
  }

  /** Every name stored in block `b` is in the phi list of every block of its
      dominance frontier. */
  ghost predicate Placed(df: map<BlockId, seq<BlockId>>, stmts: map<BlockId, seq<StmtIdents>>,
                         needed: map<BlockId, seq<string>>, b: BlockId)
  {
    b in df && b in stmts &&
    forall d, n :: d in df[b] && d in needed && n in StmtDefs(stmts[b]) ==> n in needed[d]
  }

  /** Each list of `b` extends the list of `a`, keeping it free of duplicates. */
  ghost predicate Grows(a: map<BlockId, seq<string>>, b: map<BlockId, seq<string>>) {
    a.Keys == b.Keys &&
    forall d :: d in a ==> a[d] <= b[d] && (NoDuplicates(a[d]) ==> NoDuplicates(b[d]))
  }

  lemma GrowsTransitive(a: map<BlockId, seq<string>>, b: map<BlockId, seq<string>>,
                        c: map<BlockId, seq<string>>)
    requires Grows(a, b) && Grows(b, c)
    ensures Grows(a, c)
  {
    forall d | d in a
      ensures a[d] <= c[d]
    {
      assert a[d] == b[d][..|a[d]|];
      assert b[d] == c[d][..|b[d]|];
    }
  }

  /** One block's turn: its stored names are added to the phi list of every
      block in its dominance frontier. */
  method PlaceBlockDefs(df: map<BlockId, seq<BlockId>>, allBlocks: seq<BlockId>,
                        phiNeeded: map<BlockId, seq<string>>,
                        stmts: map<BlockId, seq<StmtIdents>>,
                        needed0: map<BlockId, seq<string>>, block: BlockId)
    returns (needed: map<BlockId, seq<string>>)
    requires forall b :: b in allBlocks ==> b in stmts && b in df
    requires forall b, d :: b in allBlocks && d in df[b] ==> d in phiNeeded
    requires block in allBlocks
    requires needed0.Keys == phiNeeded.Keys
    requires PlacementSound(df, allBlocks, phiNeeded, stmts, needed0)
    ensures Grows(needed0, needed)
    ensures forall d, n :: d in needed0 && n in needed0[d] ==> n in needed[d]
    ensures Placed(df, stmts, needed, block)
    ensures PlacementSound(df, allBlocks, phiNeeded, stmts, needed)
  {
    var affected := CollectStored(stmts[block]);
    var dfBlocks := df[block];
    needed := needed0;
    var p := 0;
    while p < |dfBlocks|
      invariant 0 <= p <= |dfBlocks|
      invariant Grows(needed0, needed)
      invariant forall d, n :: d in needed0 && n in needed0[d] ==> n in needed[d]
      invariant forall q, n :: 0 <= q < p && dfBlocks[q] in needed && n in affected ==> n in needed[dfBlocks[q]]
      invariant PlacementSound(df, allBlocks, phiNeeded, stmts, needed)
    {
      var d := dfBlocks[p];
      ghost var before := needed;
      needed := AddMissing(needed, d, affected);
      forall e, n | e in needed && n in needed[e]
        ensures n in phiNeeded[e] || exists b :: b in allBlocks && e in df[b] && n in StmtDefs(stmts[b])
      {
        if e == d && n !in before[d] {
          assert block in allBlocks && d in df[block] && n in StmtDefs(stmts[block]);
        }
      }
      GrowsTransitive(needed0, before, needed);
      forall q, n | 0 <= q < p + 1 && dfBlocks[q] in needed && n in affected
        ensures n in needed[dfBlocks[q]]
      {
        if dfBlocks[q] != d {
          assert n in before[dfBlocks[q]];
        }
      }
      p := p + 1;
    }
    forall d, n | d in df[block] && d in needed && n in StmtDefs(stmts[block])
      ensures n in needed[d]
    {
      var q :| 0 <= q < |dfBlocks| && dfBlocks[q] == d;
    }
  }

  // ---------------------------------------------------------------------------
  // Searching the predecessors for the versions a phi merges

  /** The order in which a predecessor's definitions are scanned; the last
      match wins. */
  datatype ScanOrder = StoresThenPhis | PhisThenStores

  /** The last statement-store version of `name` in `ds`, or `init` when no
      statement stores it. */
  function LastStoreMatch(name: string, ds: seq<map<string, int>>, init: int): int
  {
    if ds == [] then init
    else if name in ds[|ds| - 1] then ds[|ds| - 1][name]
    else LastStoreMatch(name, ds[..|ds| - 1], init)
  }

  /** The last phi version of `name` in `phis`, or `init` when there is none. */
  function LastPhiMatch(name: string, phis: seq<PhiDef>, init: int): int
  {
    if phis == [] then init
    else if phis[|phis| - 1].name == name then phis[|phis| - 1].version
    else LastPhiMatch(name, phis[..|phis| - 1], init)
  }

  /** The version of `name` a block hands on, scanning its definitions in
      `order` and keeping the last match; -1 when the block defines no
      version of `name`. */
  function LiveOutOf(order: ScanOrder, name: string, ds: seq<map<string, int>>, phis: seq<PhiDef>): int
  {
    match order
    case StoresThenPhis => LastPhiMatch(name, phis, LastStoreMatch(name, ds, -1))
    case PhisThenStores => LastStoreMatch(name, ds, LastPhiMatch(name, phis, -1))
  }

  function LiveOut(order: ScanOrder, name: string, stored: map<BlockId, seq<map<string, int>>>,
                   phis: map<BlockId, seq<PhiDef>>, b: BlockId): int
  {
    LiveOutOf(order, name, if b in stored then stored[b] else [], if b in phis then phis[b] else [])
  }

  /** Every edge of the graph. */
  function AllLinks(preds: map<BlockId, seq<Link>>): set<Link>
  {
    set b, l | b in preds && l in preds[b] :: l
  }

  function PredsOf(preds: map<BlockId, seq<Link>>, b: BlockId): seq<Link>
  {
    if b in preds then preds[b] else []
  }

  lemma PredsOfInAllLinks(preds: map<BlockId, seq<Link>>, b: BlockId)
    ensures forall l :: l in PredsOf(preds, b) ==> l in AllLinks(preds)
  {
  }

  /**
   * The versions of `name` that reach the edges `predecessors`: an edge
   * already in `searched` is skipped; otherwise its source block contributes
   * its live-out version when it has one, and the search continues through
   * the source's own incoming edges, with every edge of `predecessors` now
   * counted as searched, when it has none.
   */
  function PredecessorVersions(order: ScanOrder, name: string,
                               stored: map<BlockId, seq<map<string, int>>>,
                               phis: map<BlockId, seq<PhiDef>>, preds: map<BlockId, seq<Link>>,
                               predecessors: seq<Link>, searched: seq<Link>): seq<int>
    requires forall l :: l in predecessors ==> l in AllLinks(preds)
    decreases |AllLinks(preds) - Elems(searched)|, 2, 0
  {
    PredecessorVersionsUpTo(order, name, stored, phis, preds, predecessors, searched, |predecessors|)
  }

  /** The contribution of the first `k` edges of `predecessors`. */
  function PredecessorVersionsUpTo(order: ScanOrder, name: string,
                                   stored: map<BlockId, seq<map<string, int>>>,
                                   phis: map<BlockId, seq<PhiDef>>, preds: map<BlockId, seq<Link>>,
                                   predecessors: seq<Link>, searched: seq<Link>, k: nat): seq<int>
    requires k <= |predecessors|
    requires forall l :: l in predecessors ==> l in AllLinks(preds)
    decreases |AllLinks(preds) - Elems(searched)|, 1, k
  {
    if k == 0 then []
    else
      PredecessorVersionsUpTo(order, name, stored, phis, preds, predecessors, searched, k - 1) +
      EdgeVersions(order, name, stored, phis, preds, predecessors, searched, predecessors[k - 1])
  }

  /** The contribution of one edge `pred` of `predecessors`. */
  function EdgeVersions(order: ScanOrder, name: string,
                        stored: map<BlockId, seq<map<string, int>>>,
                        phis: map<BlockId, seq<PhiDef>>, preds: map<BlockId, seq<Link>>,
                        predecessors: seq<Link>, searched: seq<Link>, pred: Link): seq<int>
    requires pred in predecessors
    requires forall l :: l in predecessors ==> l in AllLinks(preds)
    decreases |AllLinks(preds) - Elems(searched)|, 0, 0
  {
    if pred in searched then []
    else
      var highest := LiveOut(order, name, stored, phis, pred.source);
      if highest >= 0 then [highest]
      else
        RemainingShrinks(AllLinks(preds), Elems(searched), Elems(searched + predecessors), pred);
        PredsOfInAllLinks(preds, pred.source);
        PredecessorVersions(order, name, stored, phis, preds, PredsOf(preds, pred.source), searched + predecessors)
  }

  /** The scan as `recursive_find_var_usages_in_predecessors` writes it: the
      statement stores, then the phi stores, with the last match kept; a block
      holding both hands on a phi version (see `AsWrittenSearchPrefersPhi`). */
  method HighestNrAsWritten(varSearched: string, dicts: seq<map<string, int>>, phis: seq<PhiDef>)
    returns (highestNr: int)
    ensures highestNr == LiveOutOf(StoresThenPhis, varSearched, dicts, phis)
  {
    highestNr := -1;
    var i := 0;
    while i < |dicts|
      invariant 0 <= i <= |dicts|
      invariant highestNr == LastStoreMatch(varSearched, dicts[..i], -1)
    {
      if varSearched in dicts[i] {
        highestNr := dicts[i][varSearched];
      }
      assert dicts[..i + 1][..i] == dicts[..i];
      i := i + 1;
    }
    assert dicts[..i] == dicts;
    ghost var fromStores := highestNr;
    i := 0;
    while i < |phis|
      invariant 0 <= i <= |phis|
      invariant highestNr == LastPhiMatch(varSearched, phis[..i], fromStores)
    {
      if phis[i].name == varSearched {
        highestNr := phis[i].version;
      }
      assert phis[..i + 1][..i] == phis[..i];
      i := i + 1;
    }
    assert phis[..i] == phis;
  }

  /** The version a predecessor hands on: its phi stores, then its statement
      stores, are scanned and the last match for `varSearched` kept. */
  method HighestNr(varSearched: string, dicts: seq<map<string, int>>, phis: seq<PhiDef>)
    returns (highestNr: int)
    ensures highestNr == LiveOutOf(PhisThenStores, varSearched, dicts, phis)
  {
    highestNr := -1;
    var i := 0;
    while i < |phis|
      invariant 0 <= i <= |phis|
      invariant highestNr == LastPhiMatch(varSearched, phis[..i], -1)
    {
      if phis[i].name == varSearched {
        highestNr := phis[i].version;
      }
      assert phis[..i + 1][..i] == phis[..i];
      i := i + 1;
    }
    assert phis[..i] == phis;
    ghost var fromPhis := highestNr;
    i := 0;
    while i < |dicts|
      invariant 0 <= i <= |dicts|
      invariant highestNr == LastStoreMatch(varSearched, dicts[..i], fromPhis)
    {
      if varSearched in dicts[i] {
        highestNr := dicts[i][varSearched];
      }
      assert dicts[..i + 1][..i] == dicts[..i];
      i := i + 1;
    }
    assert dicts[..i] == dicts;
  }

  /**
   * `recursive_find_var_usages_in_predecessors`, with each predecessor's phi
   * stores scanned before its statement stores so that the version found is
   * the block's last definition.
   */
  method FindVarUsagesInPredecessors(varSearched: string,
                                     renamedStored: map<BlockId, seq<map<string, int>>>,
                                     phiStored: map<BlockId, seq<PhiDef>>,
                                     preds: map<BlockId, seq<Link>>,
                                     predecessors: seq<Link>, searchedPreds: seq<Link>)
    returns (nrs: seq<int>)
    requires forall l :: l in predecessors ==> l in AllLinks(preds)
    requires forall l :: l in AllLinks(preds) ==>
               l.source in renamedStored && l.source in phiStored && l.source in preds
    ensures nrs == PredecessorVersions(PhisThenStores, varSearched, renamedStored, phiStored, preds,
                                       predecessors, searchedPreds)
    decreases |AllLinks(preds) - Elems(searchedPreds)|
  {
    nrs := [];
    var k := 0;
    while k < |predecessors|
      invariant 0 <= k <= |predecessors|
      invariant nrs == PredecessorVersionsUpTo(PhisThenStores, varSearched, renamedStored, phiStored,
                                               preds, predecessors, searchedPreds, k)
    {
      var pred := predecessors[k];
      if pred !in searchedPreds {
        var source := pred.source;
        var highestNr := HighestNr(varSearched, renamedStored[source], phiStored[source]);
        if highestNr >= 0 {
          nrs := nrs + [highestNr];
        } else {
          RemainingShrinks(AllLinks(preds), Elems(searchedPreds), Elems(searchedPreds + predecessors), pred);
          var more := FindVarUsagesInPredecessors(varSearched, renamedStored, phiStored, preds,
                                                  preds[source], searchedPreds + predecessors);
          nrs := nrs + more;
        }
      }
      k := k + 1;
    }
  }

  /**
   * `path` is a way back from the edges `predecessors` that the search can
   * follow: it starts at one of them, each further edge enters the source
   * block of the edge before it, every block it passes through defines no
   * version of `name`, and none of its edges is in `searched`.
   */
  ghost predicate SearchPath(order: ScanOrder, name: string,
                            stored: map<BlockId, seq<map<string, int>>>,
                            phis: map<BlockId, seq<PhiDef>>, preds: map<BlockId, seq<Link>>,
                            predecessors: seq<Link>, searched: seq<Link>, path: seq<Link>)
  {
    |path| > 0 && path[0] in predecessors &&
    (forall i :: 0 <= i < |path| ==> path[i] !in searched) &&
    (forall i :: 0 <= i < |path| - 1 ==>
       LiveOut(order, name, stored, phis, path[i].source) < 0 && path[i + 1] in PredsOf(preds, path[i].source))
  }

  /** `v` is the version handed on by the block a search path ends at. */
  ghost predicate ReachesVersion(order: ScanOrder, name: string,
                               stored: map<BlockId, seq<map<string, int>>>,
                               phis: map<BlockId, seq<PhiDef>>, preds: map<BlockId, seq<Link>>,
                               predecessors: seq<Link>, searched: seq<Link>, v: int)
  {
    v >= 0 &&
    exists path: seq<Link> :: SearchPath(order, name, stored, phis, preds, predecessors, searched, path) &&
      LiveOut(order, name, stored, phis, path[|path| - 1].source) == v
  }

  /** A path from the edges into a source that defines nothing, prefixed by
      the edge into that source, is a path from the edges before. */
  lemma ReachesThrough(order: ScanOrder, name: string,
                       stored: map<BlockId, seq<map<string, int>>>,
                       phis: map<BlockId, seq<PhiDef>>, preds: map<BlockId, seq<Link>>,
                       predecessors: seq<Link>, searched: seq<Link>, pred: Link, v: int)
    requires pred in predecessors && pred !in searched
    requires LiveOut(order, name, stored, phis, pred.source) < 0
    requires ReachesVersion(order, name, stored, phis, preds, PredsOf(preds, pred.source), searched + predecessors, v)
    ensures ReachesVersion(order, name, stored, phis, preds, predecessors, searched, v)
  {
    var q: seq<Link> :| SearchPath(order, name, stored, phis, preds, PredsOf(preds, pred.source), searched + predecessors, q) &&
             LiveOut(order, name, stored, phis, q[|q| - 1].source) == v;
    SearchPathCons(order, name, stored, phis, preds, predecessors, searched, pred, q);
  }

  /** The edge into a source that defines nothing, followed by a path from the
      edges into that source, is a path from the edges before. */
  lemma SearchPathCons(order: ScanOrder, name: string,
                       stored: map<BlockId, seq<map<string, int>>>,
                       phis: map<BlockId, seq<PhiDef>>, preds: map<BlockId, seq<Link>>,
                       predecessors: seq<Link>, searched: seq<Link>, pred: Link, q: seq<Link>)
    requires pred in predecessors && pred !in searched
    requires LiveOut(order, name, stored, phis, pred.source) < 0
    requires SearchPath(order, name, stored, phis, preds, PredsOf(preds, pred.source), searched + predecessors, q)
    ensures SearchPath(order, name, stored, phis, preds, predecessors, searched, [pred] + q)
    ensures ([pred] + q)[|q|] == q[|q| - 1]
  {
    var path := [pred] + q;
    forall i | 0 <= i < |path| ensures path[i] !in searched {
      if i > 0 {
        assert path[i] == q[i - 1] && q[i - 1] !in searched + predecessors;
      }
    }
    forall i | 0 <= i < |path| - 1
      ensures LiveOut(order, name, stored, phis, path[i].source) < 0 && path[i + 1] in PredsOf(preds, path[i].source)
    {
      assert path[i + 1] == q[i];
      if i > 0 {
        assert path[i] == q[i - 1];
      }
    }
  }

  /** Every version the search returns is handed on by a block at the end of
      a search path: a block that defines the name, reached backwards from
      the starting edges through blocks that do not. */
  lemma {:induction false} PredecessorVersionsSound(order: ScanOrder, name: string,
                                                  stored: map<BlockId, seq<map<string, int>>>,
                                                  phis: map<BlockId, seq<PhiDef>>, preds: map<BlockId, seq<Link>>,
                                                  predecessors: seq<Link>, searched: seq<Link>)
    requires forall l :: l in predecessors ==> l in AllLinks(preds)
    ensures forall v :: v in PredecessorVersions(order, name, stored, phis, preds, predecessors, searched) ==>
              ReachesVersion(order, name, stored, phis, preds, predecessors, searched, v)
    decreases |AllLinks(preds) - Elems(searched)|, 2, 0
  {
    PredecessorVersionsUpToSound(order, name, stored, phis, preds, predecessors, searched, |predecessors|);
  }

  lemma {:induction false} PredecessorVersionsUpToSound(order: ScanOrder, name: string,
                                                      stored: map<BlockId, seq<map<string, int>>>,
                                                      phis: map<BlockId, seq<PhiDef>>, preds: map<BlockId, seq<Link>>,
                                                      predecessors: seq<Link>, searched: seq<Link>, k: nat)
    requires k <= |predecessors|
    requires forall l :: l in predecessors ==> l in AllLinks(preds)
    ensures forall v :: v in PredecessorVersionsUpTo(order, name, stored, phis, preds, predecessors, searched, k) ==>
              ReachesVersion(order, name, stored, phis, preds, predecessors, searched, v)
    decreases |AllLinks(preds) - Elems(searched)|, 1, k
  {
    if k > 0 {
      PredecessorVersionsUpToSound(order, name, stored, phis, preds, predecessors, searched, k - 1);
      EdgeVersionsSound(order, name, stored, phis, preds, predecessors, searched, predecessors[k - 1]);
    }
  }

  lemma {:induction false} EdgeVersionsSound(order: ScanOrder, name: string,
                                           stored: map<BlockId, seq<map<string, int>>>,
                                           phis: map<BlockId, seq<PhiDef>>, preds: map<BlockId, seq<Link>>,
                                           predecessors: seq<Link>, searched: seq<Link>, pred: Link)
    requires pred in predecessors
    requires forall l :: l in predecessors ==> l in AllLinks(preds)
    ensures forall v :: v in EdgeVersions(order, name, stored, phis, preds, predecessors, searched, pred) ==>
              ReachesVersion(order, name, stored, phis, preds, predecessors, searched, v)
    decreases |AllLinks(preds) - Elems(searched)|, 0, 0
  {
    if pred !in searched {
      if LiveOut(order, name, stored, phis, pred.source) >= 0 {
        assert SearchPath(order, name, stored, phis, preds, predecessors, searched, [pred]);
      } else {
        RemainingShrinks(AllLinks(preds), Elems(searched), Elems(searched + predecessors), pred);
        PredsOfInAllLinks(preds, pred.source);
        PredecessorVersionsSound(order, name, stored, phis, preds, PredsOf(preds, pred.source), searched + predecessors);
        forall v | v in EdgeVersions(order, name, stored, phis, preds, predecessors, searched, pred)
          ensures ReachesVersion(order, name, stored, phis, preds, predecessors, searched, v)
        {
          ReachesThrough(order, name, stored, phis, preds, predecessors, searched, pred, v);
        }
      }
    }
  }

  /** When no search path ends at a block that defines `name`, the search
      finds nothing. */
  lemma PredecessorVersionsNone(order: ScanOrder, name: string,
                                stored: map<BlockId, seq<map<string, int>>>,
                                phis: map<BlockId, seq<PhiDef>>, preds: map<BlockId, seq<Link>>,
                                predecessors: seq<Link>, searched: seq<Link>)
    requires forall l :: l in predecessors ==> l in AllLinks(preds)
    ensures (forall path: seq<Link> :: SearchPath(order, name, stored, phis, preds, predecessors, searched, path) ==>
               LiveOut(order, name, stored, phis, path[|path| - 1].source) < 0) ==>
            PredecessorVersions(order, name, stored, phis, preds, predecessors, searched) == []
  {
    PredecessorVersionsSound(order, name, stored, phis, preds, predecessors, searched);
    var r := PredecessorVersions(order, name, stored, phis, preds, predecessors, searched);
    if r != [] {
      assert ReachesVersion(order, name, stored, phis, preds, predecessors, searched, r[0]);
    }
  }

  /** What one edge contributes is part of what the first `k` edges do, for
      every `k` past it. */
  lemma {:induction false} EdgeVersionsIncluded(order: ScanOrder, name: string,
                                              stored: map<BlockId, seq<map<string, int>>>,
                                              phis: map<BlockId, seq<PhiDef>>, preds: map<BlockId, seq<Link>>,
                                              predecessors: seq<Link>, searched: seq<Link>, e: nat, k: nat)
    requires e < k <= |predecessors|
    requires forall l :: l in predecessors ==> l in AllLinks(preds)
    ensures forall v :: v in EdgeVersions(order, name, stored, phis, preds, predecessors, searched, predecessors[e]) ==>
              v in PredecessorVersionsUpTo(order, name, stored, phis, preds, predecessors, searched, k)
    decreases k
  {
    if e < k - 1 {
      EdgeVersionsIncluded(order, name, stored, phis, preds, predecessors, searched, e, k - 1);
    }
  }

  /** Every block at the end of a search path that defines `name` contributes
      the version it hands on. */
  lemma {:induction false} PredecessorVersionsComplete(order: ScanOrder, name: string,
                                                     stored: map<BlockId, seq<map<string, int>>>,
                                                     phis: map<BlockId, seq<PhiDef>>, preds: map<BlockId, seq<Link>>,
                                                     predecessors: seq<Link>, searched: seq<Link>, path: seq<Link>)
    requires forall l :: l in predecessors ==> l in AllLinks(preds)
    requires SearchPath(order, name, stored, phis, preds, predecessors, searched, path)
    requires LiveOut(order, name, stored, phis, path[|path| - 1].source) >= 0
    ensures LiveOut(order, name, stored, phis, path[|path| - 1].source) in
              PredecessorVersions(order, name, stored, phis, preds, predecessors, searched)
    decreases |AllLinks(preds) - Elems(searched)|
  {
    var v := LiveOut(order, name, stored, phis, path[|path| - 1].source);
    var j := LastStart(predecessors, path);
    var e := path[j];
    if j == |path| - 1 {
      assert EdgeVersions(order, name, stored, phis, preds, predecessors, searched, e) == [v];
    } else {
      var rest := SearchPathRest(order, name, stored, phis, preds, predecessors, searched, path, j);
      RemainingShrinks(AllLinks(preds), Elems(searched), Elems(searched + predecessors), e);
      PredsOfInAllLinks(preds, e.source);
      PredecessorVersionsComplete(order, name, stored, phis, preds, PredsOf(preds, e.source), searched + predecessors, rest);
    }
    var x :| 0 <= x < |predecessors| && predecessors[x] == e;
    EdgeVersionsIncluded(order, name, stored, phis, preds, predecessors, searched, x, |predecessors|);
  }

  /** The last edge of a path that is one of `predecessors`. */
  lemma LastStart(predecessors: seq<Link>, path: seq<Link>) returns (j: nat)
    requires |path| > 0 && path[0] in predecessors
    ensures j < |path| && path[j] in predecessors
    ensures forall i :: j < i < |path| ==> path[i] !in predecessors
  {
    j := |path| - 1;
    while path[j] !in predecessors
      invariant 0 <= j < |path|
      invariant forall i :: j < i < |path| ==> path[i] !in predecessors
      decreases j
    {
      j := j - 1;
    }
  }

  /** After the last edge `path[j]` that is one of `predecessors`, the rest of
      the path is a search path from the edges into that edge's source, with
      `predecessors` now searched. */
  lemma SearchPathRest(order: ScanOrder, name: string,
                       stored: map<BlockId, seq<map<string, int>>>,
                       phis: map<BlockId, seq<PhiDef>>, preds: map<BlockId, seq<Link>>,
                       predecessors: seq<Link>, searched: seq<Link>, path: seq<Link>, j: nat)
    returns (rest: seq<Link>)
    requires SearchPath(order, name, stored, phis, preds, predecessors, searched, path)
    requires j < |path| - 1 && path[j] in predecessors
    requires forall i :: j < i < |path| ==> path[i] !in predecessors
    ensures rest == path[j + 1..] && rest[|rest| - 1] == path[|path| - 1]
    ensures LiveOut(order, name, stored, phis, path[j].source) < 0
    ensures SearchPath(order, name, stored, phis, preds, PredsOf(preds, path[j].source), searched + predecessors, rest)
  {
    rest := path[j + 1..];
    assert forall i :: 0 <= i < |rest| ==> rest[i] == path[j + 1 + i];
  }

  // A two-block loop: block 1 runs `x = 0` and jumps to block 2; block 2 is
  // its own dominance frontier, so it starts with the phi `x_1`, runs
  // `x = x + 1` (storing `x_2`) and jumps back to itself.

  function LoopStored(): map<BlockId, seq<map<string, int>>>
  {
    map[1 := [map["x" := 0]], 2 := [map["x" := 2]]]
  }

  function LoopPhis(): map<BlockId, seq<PhiDef>>
  {
    map[1 := [], 2 := [PhiDef("x", 1)]]
  }

  function LoopPreds(): map<BlockId, seq<Link>>
  {
    map[1 := [], 2 := [Link(1, 2), Link(2, 2)]]
  }

  /**
   * Scanning statement stores before phi stores, as the search is written,
   * makes the loop's back edge hand on the phi version `x_1` instead of the
   * block's last definition `x_2`.
   */
  lemma AsWrittenSearchPrefersPhi()
    ensures PredecessorVersions(StoresThenPhis, "x", LoopStored(), LoopPhis(), LoopPreds(), LoopPreds()[2], []) == [0, 1]
    ensures PredecessorVersions(PhisThenStores, "x", LoopStored(), LoopPhis(), LoopPreds(), LoopPreds()[2], []) == [0, 2]
    ensures LoopStored()[2][0]["x"] == 2
  {
    var preds := LoopPreds();
    assert 2 in preds && Link(1, 2) in preds[2] && Link(2, 2) in preds[2];
    assert LiveOut(StoresThenPhis, "x", LoopStored(), LoopPhis(), 1) == 0;
    assert LiveOut(StoresThenPhis, "x", LoopStored(), LoopPhis(), 2) == 1;
    assert LiveOut(PhisThenStores, "x", LoopStored(), LoopPhis(), 1) == 0;
    assert LiveOut(PhisThenStores, "x", LoopStored(), LoopPhis(), 2) == 2;
  }

  /** Within one block the versions of `name` rise: statement stores in
      statement order, phis in phi order, and every phi below every store. */
  ghost predicate VersionsAscending(name: string, ds: seq<map<string, int>>, phis: seq<PhiDef>)
  {
    (forall i, j :: 0 <= i < j < |ds| && name in ds[i] && name in ds[j] ==> ds[i][name] < ds[j][name]) &&
    (forall i, j :: 0 <= i < j < |phis| && phis[i].name == name && phis[j].name == name ==>
       phis[i].version < phis[j].version) &&
    (forall i, j :: 0 <= i < |phis| && 0 <= j < |ds| && phis[i].name == name && name in ds[j] ==>
       phis[i].version < ds[j][name])
  }

  lemma {:induction false} LastStoreMatchIsLast(name: string, ds: seq<map<string, int>>, init: int)
    ensures ((forall i :: 0 <= i < |ds| ==> name !in ds[i]) && LastStoreMatch(name, ds, init) == init) ||
            (exists i :: 0 <= i < |ds| && name in ds[i] && LastStoreMatch(name, ds, init) == ds[i][name] &&
               forall j :: i < j < |ds| ==> name !in ds[j])
    decreases |ds|
  {
    if ds != [] && name !in ds[|ds| - 1] {
      var init' := ds[..|ds| - 1];
      LastStoreMatchIsLast(name, init', init);
      if exists i :: 0 <= i < |init'| && name in init'[i] && LastStoreMatch(name, init', init) == init'[i][name] &&
                     forall j :: i < j < |init'| ==> name !in init'[j] {
        var i :| 0 <= i < |init'| && name in init'[i] && LastStoreMatch(name, init', init) == init'[i][name] &&
                 forall j :: i < j < |init'| ==> name !in init'[j];
        assert ds[i] == init'[i];
        forall j | i < j < |ds| ensures name !in ds[j] {
          if j < |init'| {
            assert ds[j] == init'[j];
          }
        }
      } else {
        forall i | 0 <= i < |ds| ensures name !in ds[i] {
          if i < |init'| {
            assert ds[i] == init'[i];
          }
        }
      }
    }
  }

  lemma {:induction false} LastPhiMatchIsLast(name: string, phis: seq<PhiDef>, init: int)
    ensures ((forall i :: 0 <= i < |phis| ==> phis[i].name != name) && LastPhiMatch(name, phis, init) == init) ||
            (exists i :: 0 <= i < |phis| && phis[i].name == name && LastPhiMatch(name, phis, init) == phis[i].version &&
               forall j :: i < j < |phis| ==> phis[j].name != name)
    decreases |phis|
  {
    if phis != [] && phis[|phis| - 1].name != name {
      var init' := phis[..|phis| - 1];
      LastPhiMatchIsLast(name, init', init);
      if exists i :: 0 <= i < |init'| && init'[i].name == name && LastPhiMatch(name, init', init) == init'[i].version &&
                     forall j :: i < j < |init'| ==> init'[j].name != name {
        var i :| 0 <= i < |init'| && init'[i].name == name && LastPhiMatch(name, init', init) == init'[i].version &&
                 forall j :: i < j < |init'| ==> init'[j].name != name;
        assert phis[i] == init'[i];
        forall j | i < j < |phis| ensures phis[j].name != name {
          if j < |init'| {
            assert phis[j] == init'[j];
          }
        }
      } else {
        forall i | 0 <= i < |phis| ensures phis[i].name != name {
          if i < |init'| {
            assert phis[i] == init'[i];
          }
        }
      }
    }
  }

  /**
   * With phis scanned first, a block whose versions rise hands on its highest
   * version of `name`: the result is one of the block's versions (or -1 when
   * it has none) and no version in the block exceeds it.
   */
  lemma LiveOutIsHighest(name: string, ds: seq<map<string, int>>, phis: seq<PhiDef>)
    requires VersionsAscending(name, ds, phis)
    ensures var r := LiveOutOf(PhisThenStores, name, ds, phis);
      (forall i :: 0 <= i < |ds| && name in ds[i] ==> ds[i][name] <= r) &&
      (forall j :: 0 <= j < |phis| && phis[j].name == name ==> phis[j].version <= r) &&
      (r == -1 || (exists i :: 0 <= i < |ds| && name in ds[i] && r == ds[i][name]) ||
                  (exists j :: 0 <= j < |phis| && phis[j].name == name && r == phis[j].version))
  {
    var rp := LastPhiMatch(name, phis, -1);
    LastPhiMatchIsLast(name, phis, -1);
    LastStoreMatchIsLast(name, ds, rp);
    var r := LastStoreMatch(name, ds, rp);
    if exists i :: 0 <= i < |ds| && name in ds[i] && r == ds[i][name] && forall j :: i < j < |ds| ==> name !in ds[j] {
      var i :| 0 <= i < |ds| && name in ds[i] && r == ds[i][name] && forall j :: i < j < |ds| ==> name !in ds[j];
      forall i' | 0 <= i' < |ds| && name in ds[i'] ensures ds[i'][name] <= r {
        if i' < i {
          assert ds[i'][name] < ds[i][name];
        }
      }
    }
  }

  // ---------------------------------------------------------------------------
  // Renaming: one version counter per name, shared by all blocks

  /** `counter` maps each name defined in `defs` to the version of its latest
      definition, which is one less than the number of its definitions. */
  ghost predicate Tracks(counter: map<string, int>, defs: seq<string>)
  {
    forall n :: (n in counter <==> Count(n, defs) > 0) && (n in counter ==> counter[n] == Count(n, defs) - 1)
  }

  /** One more definition of `n`: its counter starts at 0 or rises by one. */
  function Bump(counter: map<string, int>, n: string): map<string, int>
  {
    if n in counter then counter[n := counter[n] + 1] else counter[n := 0]
  }

  lemma BumpTracks(counter: map<string, int>, defs: seq<string>, n: string)
    requires Tracks(counter, defs)
    ensures Tracks(Bump(counter, n), defs + [n])
    ensures Bump(counter, n)[n] == Count(n, defs)
  {
    forall m ensures Count(m, defs + [n]) == Count(m, defs) + (if m == n then 1 else 0) {
      CountAppend(m, defs, [n]);
      assert [n][..0] == [];
    }
  }

  /** The version map of one statement's stores, given the definitions `pre`
      made before it: each stored name gets the version of its last
      definition in the statement. */
  function StoreMap(stored: seq<string>, pre: seq<string>): map<string, int>
  {
    map n | n in stored :: Count(n, pre + stored) - 1
  }

  /** The version sets of one statement's loads, given the definitions `pre`
      made before it: the latest version of a name defined earlier, and no
      version for a name not yet defined. */
  function LoadMap(loaded: seq<string>, pre: seq<string>): map<string, set<int>>
  {
    map n | n in loaded :: if n in pre then {Count(n, pre) - 1} else {}
  }

  /** A statement's loads: each loaded name gets the current version of that
      name, or no version when the name has no definition yet. */
  method ResolveLoads(loadedIdents: seq<string>, counter: map<string, int>, ghost pre: seq<string>)
    returns (loadedVersions: map<string, set<int>>)
    requires Tracks(counter, pre)
    ensures loadedVersions == LoadMap(loadedIdents, pre)
  {
    loadedVersions := map n | n in loadedIdents :: {};
    var m := 0;
    while m < |loadedIdents|
      invariant 0 <= m <= |loadedIdents|
      invariant loadedVersions.Keys == Elems(loadedIdents)
      invariant forall n :: n in loadedVersions ==>
                  loadedVersions[n] == if n in loadedIdents[..m] && n in counter then {counter[n]} else {}
    {
      var ident := loadedIdents[m];
      if ident in counter {
        loadedVersions := loadedVersions[ident := loadedVersions[ident] + {counter[ident]}];
      }
      assert loadedIdents[..m + 1] == loadedIdents[..m] + [ident];
      m := m + 1;
    }
    assert loadedIdents[..m] == loadedIdents;
    forall n | n in loadedVersions ensures loadedVersions[n] == LoadMap(loadedIdents, pre)[n] {
      CountZeroNotIn(n, pre);
    }
  }

  /** A statement's stores: each stored name's counter is bumped, and the
      statement records the version its last store of the name got. */
  method RenameStores(storedIdents: seq<string>, counter: map<string, int>, ghost pre: seq<string>)
    returns (storedVersions: map<string, int>, counter': map<string, int>)
    requires Tracks(counter, pre)
    ensures Tracks(counter', pre + storedIdents)
    ensures storedVersions == StoreMap(storedIdents, pre)
  {
    storedVersions := map[];
    counter' := counter;
    ghost var defs := pre;
    var m := 0;
    while m < |storedIdents|
      invariant 0 <= m <= |storedIdents|
      invariant defs == pre + storedIdents[..m]
      invariant Tracks(counter', defs)
      invariant storedVersions.Keys == Elems(storedIdents[..m])
      invariant forall n :: n in storedVersions ==> n in counter' && storedVersions[n] == counter'[n]
    {
      var ident := storedIdents[m];
      BumpTracks(counter', defs, ident);
      counter' := Bump(counter', ident);
      defs := defs + [ident];
      storedVersions := storedVersions[ident := counter'[ident]];
      assert storedIdents[..m + 1] == storedIdents[..m] + [ident];
      m := m + 1;
    }
    assert storedIdents[..m] == storedIdents;
  }

  /** One statement: its loads are resolved first, then its stores renamed,
      so that `b = b + 1` loads the version before the one it stores. */
  method RenameStatement(st: StmtIdents, counter: map<string, int>, ghost pre: seq<string>)
    returns (storedVersions: map<string, int>, loadedVersions: map<string, set<int>>,
             counter': map<string, int>)
    requires Tracks(counter, pre)
    ensures Tracks(counter', pre + st.stored)
    ensures storedVersions == StoreMap(st.stored, pre)
    ensures loadedVersions == LoadMap(st.loaded, pre)
  {
    loadedVersions := ResolveLoads(st.loaded, counter, pre);
    storedVersions, counter' := RenameStores(st.stored, counter, pre);
  }

  /** What renaming one block yields, given the definitions `pre` made in the
      blocks before it: phi `j` gets as version the number of definitions of
      its name before it, and statement `i` sees `pre`, the block's phis and
      the stores of the statements before it. */
  ghost predicate BlockRenamed(phiVars: seq<string>, stmts: seq<StmtIdents>, pre: seq<string>,
                               phiDefs: seq<PhiDef>, stored: seq<map<string, int>>,
                               loaded: seq<map<string, set<int>>>)
  {
    |phiDefs| == |phiVars| &&
    (forall j :: 0 <= j < |phiVars| ==> phiDefs[j] == PhiDef(phiVars[j], Count(phiVars[j], pre + phiVars[..j]))) &&
    |stored| == |stmts| && |loaded| == |stmts| &&
    (forall i :: 0 <= i < |stmts| ==>
       stored[i] == StoreMap(stmts[i].stored, pre + phiVars + StmtDefs(stmts[..i])) &&
       loaded[i] == LoadMap(stmts[i].loaded, pre + phiVars + StmtDefs(stmts[..i])))
  }

  /** Phi `j` of `phiVars` reserves the version that counts the definitions
      of its name in `pre` and the phis before it. */
  ghost predicate PhiReserved(phiVars: seq<string>, pre: seq<string>, j: int, def: PhiDef)
    requires 0 <= j < |phiVars|
  {
    def == PhiDef(phiVars[j], Count(phiVars[j], pre + phiVars[..j]))
  }

  /** A block's phis, in order: each reserves the next version of its name. */
  method ReservePhis(phiVars: seq<string>, counter: map<string, int>, ghost pre: seq<string>)
    returns (phiDefs: seq<PhiDef>, counter': map<string, int>)
    requires Tracks(counter, pre)
    ensures Tracks(counter', pre + phiVars)
    ensures |phiDefs| == |phiVars|
    ensures forall j :: 0 <= j < |phiVars| ==> phiDefs[j] == PhiDef(phiVars[j], Count(phiVars[j], pre + phiVars[..j]))
  {
    counter' := counter;
    ghost var defs := pre;
    phiDefs := [];
    var j := 0;
    while j < |phiVars|
      invariant 0 <= j <= |phiVars|
      invariant defs == pre + phiVars[..j]
      invariant Tracks(counter', defs)
      invariant |phiDefs| == j
      invariant forall j' :: 0 <= j' < j ==> PhiReserved(phiVars, pre, j', phiDefs[j'])
    {
      var phiVar := phiVars[j];
      BumpTracks(counter', defs, phiVar);
      counter' := Bump(counter', phiVar);
      assert PhiReserved(phiVars, pre, j, PhiDef(phiVar, counter'[phiVar]));
      ghost var before := phiDefs;
      phiDefs := phiDefs + [PhiDef(phiVar, counter'[phiVar])];
      assert forall j' :: 0 <= j' < j ==> phiDefs[j'] == before[j'];
      defs := defs + [phiVar];
      assert phiVars[..j + 1] == phiVars[..j] + [phiVar];
      j := j + 1;
    }
    assert phiVars[..j] == phiVars;
    assert forall j' :: 0 <= j' < j ==> PhiReserved(phiVars, pre, j', phiDefs[j']);
  }

  /** Statement `i` of `stmts` renamed to `st` and `ld`, after the definitions
      `pre` and those of the statements before it. */
  ghost predicate StmtRenamed(stmts: seq<StmtIdents>, pre: seq<string>, i: int,
                              st: map<string, int>, ld: map<string, set<int>>)
    requires 0 <= i < |stmts|
  {
    st == StoreMap(stmts[i].stored, pre + StmtDefs(stmts[..i])) &&
    ld == LoadMap(stmts[i].loaded, pre + StmtDefs(stmts[..i]))
  }

  /** A block's statements, in order. */
  method RenameStatements(stmts: seq<StmtIdents>, counter: map<string, int>, ghost pre: seq<string>)
    returns (stored: seq<map<string, int>>, loaded: seq<map<string, set<int>>>, counter': map<string, int>)
    requires Tracks(counter, pre)
    ensures Tracks(counter', pre + StmtDefs(stmts))
    ensures |stored| == |stmts| && |loaded| == |stmts|
    ensures forall i :: 0 <= i < |stmts| ==>
              stored[i] == StoreMap(stmts[i].stored, pre + StmtDefs(stmts[..i])) &&
              loaded[i] == LoadMap(stmts[i].loaded, pre + StmtDefs(stmts[..i]))
  {
    counter' := counter;
    ghost var defs := pre;
    stored := [];
    loaded := [];
    var i := 0;
    while i < |stmts|
      invariant 0 <= i <= |stmts|
      invariant defs == pre + StmtDefs(stmts[..i])
      invariant Tracks(counter', defs)
      invariant |stored| == i && |loaded| == i
      invariant forall i' :: 0 <= i' < i ==> StmtRenamed(stmts, pre, i', stored[i'], loaded[i'])
    {
      var storedVersions, loadedVersions;
      storedVersions, loadedVersions, counter' := RenameStatement(stmts[i], counter', defs);
      assert StmtRenamed(stmts, pre, i, storedVersions, loadedVersions);
      ghost var stored0, loaded0 := stored, loaded;
      stored := stored + [storedVersions];
      loaded := loaded + [loadedVersions];
      assert forall i' :: 0 <= i' < i ==> stored[i'] == stored0[i'] && loaded[i'] == loaded0[i'];
      assert stmts[..i + 1][..i] == stmts[..i];
      defs := defs + stmts[i].stored;
      i := i + 1;
    }
    assert stmts[..i] == stmts;
    assert forall i' :: 0 <= i' < i ==> StmtRenamed(stmts, pre, i', stored[i'], loaded[i']);
  }

  /** One block: its phi versions are reserved first, then its statements are
      renamed in order. */
  method RenameBlock(phiVars: seq<string>, stmts: seq<StmtIdents>, counter: map<string, int>,
                     ghost pre: seq<string>)
    returns (phiDefs: seq<PhiDef>, stored: seq<map<string, int>>, loaded: seq<map<string, set<int>>>,
             counter': map<string, int>)
    requires Tracks(counter, pre)
    ensures Tracks(counter', pre + (phiVars + StmtDefs(stmts)))
    ensures BlockRenamed(phiVars, stmts, pre, phiDefs, stored, loaded)
  {
    var afterPhis;
    phiDefs, afterPhis := ReservePhis(phiVars, counter, pre);
    stored, loaded, counter' := RenameStatements(stmts, afterPhis, pre + phiVars);
    assert pre + phiVars + StmtDefs(stmts) == pre + (phiVars + StmtDefs(stmts));
  }

  /** What the renaming pass needs of its graph: block ids are distinct, every
      block has statements, incoming edges and a dominance frontier, and the
      frontiers and edge sources are blocks of the graph. */
  ghost predicate WellFormed(cfg: Cfg, df: map<BlockId, seq<BlockId>>)
  {
    NoDuplicates(cfg.blocks) &&
    (forall b :: b in cfg.blocks ==> b in cfg.stmts && b in cfg.preds && b in df) &&
    (forall b, d :: b in cfg.blocks && d in df[b] ==> d in cfg.blocks) &&
    (forall l :: l in AllLinks(cfg.preds) ==> l.source in cfg.blocks)
  }

  ghost predicate Covers(cfg: Cfg, needed: map<BlockId, seq<string>>)
  {
    (forall b :: b in cfg.blocks ==> b in needed && b in cfg.stmts) &&
    (forall k :: 0 <= k < |cfg.blocks| ==> cfg.blocks[k] in needed && cfg.blocks[k] in cfg.stmts)
  }

  /** Every definition made in the first `k` blocks, in renaming order: each
      block's phis, then its statements' stores. */
  function DefsBefore(cfg: Cfg, needed: map<BlockId, seq<string>>, k: nat): seq<string>
    requires k <= |cfg.blocks| && Covers(cfg, needed)
  {
    if k == 0 then []
    else
      var b := cfg.blocks[k - 1];
      DefsBefore(cfg, needed, k - 1) + (needed[b] + StmtDefs(cfg.stmts[b]))
  }

  /** Every phi's arguments are what the predecessor search finds for its name
      over the completed store tables. */
  ghost predicate PhisResolved(cfg: Cfg, needed: map<BlockId, seq<string>>, t: SsaTables)
    requires Covers(cfg, needed)
  {
    forall b :: b in cfg.blocks ==>
      b in t.phiLoaded && |t.phiLoaded[b]| == |needed[b]| &&
      forall j :: 0 <= j < |needed[b]| ==>
        t.phiLoaded[b][j] == PhiUse(needed[b][j],
                                    PredecessorVersions(PhisThenStores, needed[b][j], t.renamedStored, t.phiStored,
                                                        cfg.preds, PredsOf(cfg.preds, b), []))
  }

  /** `needed` places, without repetition, a phi for every name stored in a
      block at every block of that block's dominance frontier, and no other
      phi. */
  ghost predicate PhiPlacement(cfg: Cfg, df: map<BlockId, seq<BlockId>>, needed: map<BlockId, seq<string>>)
    requires WellFormed(cfg, df)
  {
    Covers(cfg, needed) &&
    (forall b :: b in cfg.blocks ==> NoDuplicates(needed[b])) &&
    (forall b, d, n :: b in cfg.blocks && d in df[b] && n in StmtDefs(cfg.stmts[b]) ==> n in needed[d]) &&
    (forall d, n :: d in cfg.blocks && n in needed[d] ==>
       exists b :: b in cfg.blocks && d in df[b] && n in StmtDefs(cfg.stmts[b]))
  }

  /** Phi placement started from empty lists is a placement in the above sense. */
  lemma PlacementFromNothing(cfg: Cfg, df: map<BlockId, seq<BlockId>>, noPhis: map<BlockId, seq<string>>,
                             needed: map<BlockId, seq<string>>)
    requires WellFormed(cfg, df)
    requires noPhis == map b | b in cfg.blocks :: []
    requires needed.Keys == noPhis.Keys
    requires forall d :: d in noPhis && NoDuplicates(noPhis[d]) ==> NoDuplicates(needed[d])
    requires forall b, d, n :: b in cfg.blocks && d in df[b] && n in StmtDefs(cfg.stmts[b]) ==> n in needed[d]
    requires PlacementSound(df, cfg.blocks, noPhis, cfg.stmts, needed)
    ensures PhiPlacement(cfg, df, needed)
  {
    forall b | b in cfg.blocks ensures NoDuplicates(needed[b]) {
      assert noPhis[b] == [];
    }
  }

  /**
   * `compute_SSA2` over the statement analysis and the dominance frontiers:
   * phis are placed, every definition is numbered by one counter per name
   * running over the blocks in order (phis before statements, loads before
   * stores), and each phi's arguments are then searched in the predecessors.
   * `needed` is the phi placement the pass computes internally.
   */
  method ComputeSsa2(cfg: Cfg, df: map<BlockId, seq<BlockId>>)
    returns (t: SsaTables, ghost needed: map<BlockId, seq<string>>)
    requires WellFormed(cfg, df)
    ensures PhiPlacement(cfg, df, needed)
    ensures t.renamedStored.Keys == t.renamedLoaded.Keys == t.phiStored.Keys == t.phiLoaded.Keys == Elems(cfg.blocks)
    ensures RenamedUpTo(cfg, needed, t.phiStored, t.renamedStored, t.renamedLoaded, |cfg.blocks|)
    ensures PhisResolved(cfg, needed, t)
    ensures forall s: Site, s': Site, name: string, v: int ::
              DefinesVersion(cfg, t, s, name, v) && DefinesVersion(cfg, t, s', name, v) ==> s == s'
  {
    var noPhis: map<BlockId, seq<string>> := map b | b in cfg.blocks :: [];
    var phiNeeded := LookupPhiPlacements(df, cfg.blocks, noPhis, cfg.stmts);
    PlacementFromNothing(cfg, df, noPhis, phiNeeded);
    needed := phiNeeded;
    var renamedStored, renamedLoaded, phiStored := RenameBlocks(cfg, phiNeeded);
    var phiLoaded := ResolvePhis(cfg, phiNeeded, renamedStored, phiStored);
    t := SsaTables(renamedStored, renamedLoaded, phiStored, phiLoaded);
    forall s: Site, s': Site, name: string, v: int |
      DefinesVersion(cfg, t, s, name, v) && DefinesVersion(cfg, t, s', name, v)
      ensures s == s'
    {
      DefinitionSitesUnique(cfg, needed, t, s, s', name, v);
    }
  }

  /** The phi, store and load tables hold, for each of the first `k` blocks,
      what renaming the blocks in order yields. */
  ghost predicate RenamedUpTo(cfg: Cfg, needed: map<BlockId, seq<string>>,
                              phiStored: map<BlockId, seq<PhiDef>>,
                              renamedStored: map<BlockId, seq<map<string, int>>>,
                              renamedLoaded: map<BlockId, seq<map<string, set<int>>>>, k: nat)
    requires Covers(cfg, needed) && k <= |cfg.blocks|
  {
    forall k' {:trigger phiStored[cfg.blocks[k']]} :: 0 <= k' < k ==>
      cfg.blocks[k'] in phiStored && cfg.blocks[k'] in renamedStored && cfg.blocks[k'] in renamedLoaded &&
      BlockRenamed(needed[cfg.blocks[k']], cfg.stmts[cfg.blocks[k']], DefsBefore(cfg, needed, k'),
                   phiStored[cfg.blocks[k']], renamedStored[cfg.blocks[k']], renamedLoaded[cfg.blocks[k']])
  }

  lemma RenamedUpToExtend(cfg: Cfg, needed: map<BlockId, seq<string>>,
                          phiStored: map<BlockId, seq<PhiDef>>,
                          renamedStored: map<BlockId, seq<map<string, int>>>,
                          renamedLoaded: map<BlockId, seq<map<string, set<int>>>>, k: nat,
                          phiDefs: seq<PhiDef>, stored: seq<map<string, int>>, loaded: seq<map<string, set<int>>>)
    requires NoDuplicates(cfg.blocks) && Covers(cfg, needed) && k < |cfg.blocks|
    requires RenamedUpTo(cfg, needed, phiStored, renamedStored, renamedLoaded, k)
    requires BlockRenamed(needed[cfg.blocks[k]], cfg.stmts[cfg.blocks[k]], DefsBefore(cfg, needed, k),
                          phiDefs, stored, loaded)
    ensures RenamedUpTo(cfg, needed, phiStored[cfg.blocks[k] := phiDefs], renamedStored[cfg.blocks[k] := stored],
                        renamedLoaded[cfg.blocks[k] := loaded], k + 1)
  {
    var b := cfg.blocks[k];
    forall k' | 0 <= k' < k ensures cfg.blocks[k'] != b {
    }
  }

  /** The second phase of `compute_SSA2`: the blocks are renamed in order with
      one counter per name. */
  method RenameBlocks(cfg: Cfg, phiNeeded: map<BlockId, seq<string>>)
    returns (renamedStored: map<BlockId, seq<map<string, int>>>,
             renamedLoaded: map<BlockId, seq<map<string, set<int>>>>,
             phiStored: map<BlockId, seq<PhiDef>>)
    requires NoDuplicates(cfg.blocks) && Covers(cfg, phiNeeded)
    ensures renamedStored.Keys == renamedLoaded.Keys == phiStored.Keys == Elems(cfg.blocks)
    ensures RenamedUpTo(cfg, phiNeeded, phiStored, renamedStored, renamedLoaded, |cfg.blocks|)
  {
    var counter: map<string, int> := map[];
    ghost var done: seq<string> := [];
    renamedStored, renamedLoaded, phiStored := map[], map[], map[];
    var k := 0;
    while k < |cfg.blocks|
      invariant 0 <= k <= |cfg.blocks|
      invariant done == DefsBefore(cfg, phiNeeded, k)
      invariant Tracks(counter, done)
      invariant renamedStored.Keys == renamedLoaded.Keys == phiStored.Keys == Elems(cfg.blocks[..k])
      invariant RenamedUpTo(cfg, phiNeeded, phiStored, renamedStored, renamedLoaded, k)
    {
      var block := cfg.blocks[k];
      var phiDefs, stored, loaded;
      phiDefs, stored, loaded, counter := RenameBlock(phiNeeded[block], cfg.stmts[block], counter, done);
      RenamedUpToExtend(cfg, phiNeeded, phiStored, renamedStored, renamedLoaded, k, phiDefs, stored, loaded);
      phiStored := phiStored[block := phiDefs];
      renamedStored := renamedStored[block := stored];
      renamedLoaded := renamedLoaded[block := loaded];
      done := done + (phiNeeded[block] + StmtDefs(cfg.stmts[block]));
      assert done == DefsBefore(cfg, phiNeeded, k + 1);
      assert Elems(cfg.blocks[..k + 1]) == Elems(cfg.blocks[..k]) + {block} by {
        assert cfg.blocks[..k + 1] == cfg.blocks[..k] + [block];
        ElemsSnoc(cfg.blocks[..k], block);
      }
      k := k + 1;
    }
    assert cfg.blocks[..k] == cfg.blocks;
  }

  /** The third phase of `compute_SSA2`: with every store table complete, each
      phi's arguments are searched in the predecessors of its block. */
  method ResolvePhis(cfg: Cfg, phiNeeded: map<BlockId, seq<string>>,
                     renamedStored: map<BlockId, seq<map<string, int>>>, phiStored: map<BlockId, seq<PhiDef>>)
    returns (phiLoaded: map<BlockId, seq<PhiUse>>)
    requires Covers(cfg, phiNeeded)
    requires forall b :: b in cfg.blocks ==> b in cfg.preds && b in renamedStored && b in phiStored
    requires forall l :: l in AllLinks(cfg.preds) ==> l.source in cfg.blocks
    ensures phiLoaded.Keys == Elems(cfg.blocks)
    ensures PhisResolved(cfg, phiNeeded, SsaTables(renamedStored, map[], phiStored, phiLoaded))
  {
    phiLoaded := map[];
    var k := 0;
    while k < |cfg.blocks|
      invariant 0 <= k <= |cfg.blocks|
      invariant phiLoaded.Keys == Elems(cfg.blocks[..k])
      invariant forall b :: b in phiLoaded ==>
                  |phiLoaded[b]| == |phiNeeded[b]| &&
                  forall j :: 0 <= j < |phiNeeded[b]| ==>
                    phiLoaded[b][j] == PhiUse(phiNeeded[b][j],
                                              PredecessorVersions(PhisThenStores, phiNeeded[b][j], renamedStored,
                                                                  phiStored, cfg.preds, PredsOf(cfg.preds, b), []))
    {
      var block := cfg.blocks[k];
      var phiVars := phiNeeded[block];
      var uses: seq<PhiUse> := [];
      var j := 0;
      while j < |phiVars|
        invariant 0 <= j <= |phiVars|
        invariant |uses| == j
        invariant forall j' :: 0 <= j' < j ==>
                    uses[j'] == PhiUse(phiVars[j'],
                                       PredecessorVersions(PhisThenStores, phiVars[j'], renamedStored, phiStored,
                                                           cfg.preds, PredsOf(cfg.preds, block), []))
      {
        var nrs := FindVarUsagesInPredecessors(phiVars[j], renamedStored, phiStored, cfg.preds,
                                               cfg.preds[block], []);
        uses := uses + [PhiUse(phiVars[j], nrs)];
        j := j + 1;
      }
      phiLoaded := phiLoaded[block := uses];
      assert cfg.blocks[..k + 1] == cfg.blocks[..k] + [block];
      k := k + 1;
    }
    assert cfg.blocks[..k] == cfg.blocks;
  }

  // ---------------------------------------------------------------------------
  // What the numbering guarantees

  /**
   * Numbering each definition by how many definitions of its name come before
   * it gives the first definition of a name version 0, each later one the
   * previous version plus one, and so never the same (name, version) pair to
   * two definitions.
   */
  lemma DefinitionVersions(defs: seq<string>, p: nat, q: nat)
    requires p < q < |defs| && defs[p] == defs[q]
    ensures Count(defs[q], defs[..q]) >= Count(defs[p], defs[..p]) + 1
    ensures (forall r :: p < r < q ==> defs[r] != defs[q]) ==>
              Count(defs[q], defs[..q]) == Count(defs[p], defs[..p]) + 1
    ensures (forall r :: 0 <= r < p ==> defs[r] != defs[p]) ==> Count(defs[p], defs[..p]) == 0
  {
    var n := defs[p];
    assert defs[..q] == defs[..p] + [n] + defs[p + 1..q];
    CountAppend(n, defs[..p] + [n], defs[p + 1..q]);
    CountAppend(n, defs[..p], [n]);
    assert [n][..0] == [];
    if forall r :: p < r < q ==> defs[r] != n {
      CountZeroNotIn(n, defs[p + 1..q]);
    }
    if forall r :: 0 <= r < p ==> defs[r] != n {
      CountZeroNotIn(n, defs[..p]);
    }
  }

  /** A definition site of the renamed tables: phi `j` of the `k`-th block,
      or the stores of statement `i` of the `k`-th block. */
  datatype Site = PhiSite(k: nat, j: nat) | StoreSite(k: nat, i: nat)

  /** Site `s` defines version `v` of `name` in the tables `t`. */
  ghost predicate DefinesVersion(cfg: Cfg, t: SsaTables, s: Site, name: string, v: int)
  {
    s.k < |cfg.blocks| &&
    match s
    case PhiSite(k, j) =>
      cfg.blocks[k] in t.phiStored && j < |t.phiStored[cfg.blocks[k]]| &&
      t.phiStored[cfg.blocks[k]][j] == PhiDef(name, v)
    case StoreSite(k, i) =>
      cfg.blocks[k] in t.renamedStored && i < |t.renamedStored[cfg.blocks[k]]| &&
      name in t.renamedStored[cfg.blocks[k]][i] && t.renamedStored[cfg.blocks[k]][i][name] == v
  }

  ghost predicate SiteIn(cfg: Cfg, needed: map<BlockId, seq<string>>, s: Site)
    requires Covers(cfg, needed)
  {
    s.k < |cfg.blocks| &&
    match s
    case PhiSite(k, j) => j < |needed[cfg.blocks[k]]|
    case StoreSite(k, i) => i < |cfg.stmts[cfg.blocks[k]]|
  }

  /** Where the definitions a site makes begin and end in the renaming order
      `DefsBefore(cfg, needed, |cfg.blocks|)`. */
  ghost function SiteBegin(cfg: Cfg, needed: map<BlockId, seq<string>>, s: Site): nat
    requires Covers(cfg, needed) && SiteIn(cfg, needed, s)
  {
    var b := cfg.blocks[s.k];
    match s
    case PhiSite(k, j) => |DefsBefore(cfg, needed, k)| + j
    case StoreSite(k, i) => |DefsBefore(cfg, needed, k)| + |needed[b]| + |StmtDefs(cfg.stmts[b][..i])|
  }

  ghost function SiteEnd(cfg: Cfg, needed: map<BlockId, seq<string>>, s: Site): nat
    requires Covers(cfg, needed) && SiteIn(cfg, needed, s)
  {
    match s
    case PhiSite(_, _) => SiteBegin(cfg, needed, s) + 1
    case StoreSite(k, i) => SiteBegin(cfg, needed, s) + |cfg.stmts[cfg.blocks[k]][i].stored|
  }

  lemma {:induction false} DefsBeforePrefix(cfg: Cfg, needed: map<BlockId, seq<string>>, k: nat, k': nat)
    requires Covers(cfg, needed) && k <= k' <= |cfg.blocks|
    ensures |DefsBefore(cfg, needed, k)| <= |DefsBefore(cfg, needed, k')|
    ensures DefsBefore(cfg, needed, k')[..|DefsBefore(cfg, needed, k)|] == DefsBefore(cfg, needed, k)
    decreases k'
  {
    if k < k' {
      DefsBeforePrefix(cfg, needed, k, k' - 1);
    }
  }

  lemma {:induction false} StmtDefsPrefix(stmts: seq<StmtIdents>, i: nat)
    requires i <= |stmts|
    ensures |StmtDefs(stmts[..i])| <= |StmtDefs(stmts)|
    ensures StmtDefs(stmts)[..|StmtDefs(stmts[..i])|] == StmtDefs(stmts[..i])
    decreases |stmts|
  {
    if i < |stmts| {
      var init := stmts[..|stmts| - 1];
      StmtDefsPrefix(init, i);
      assert init[..i] == stmts[..i];
    } else {
      assert stmts[..i] == stmts;
    }
  }

  /** The definitions of a site are where its version counts them: its
      version is one less than the number of definitions of its name up to
      its end, and its name is among them. */
  lemma SiteSpan(cfg: Cfg, needed: map<BlockId, seq<string>>, t: SsaTables, s: Site, name: string, v: int)
    requires Covers(cfg, needed) && t.renamedStored.Keys == t.phiStored.Keys
    requires RenamedUpTo(cfg, needed, t.phiStored, t.renamedStored, t.renamedLoaded, |cfg.blocks|)
    requires DefinesVersion(cfg, t, s, name, v)
    ensures SiteIn(cfg, needed, s)
    ensures var all := DefsBefore(cfg, needed, |cfg.blocks|);
            SiteBegin(cfg, needed, s) <= SiteEnd(cfg, needed, s) <= |all| &&
            name in all[SiteBegin(cfg, needed, s)..SiteEnd(cfg, needed, s)] &&
            v == Count(name, all[..SiteEnd(cfg, needed, s)]) - 1
  {
    var k := s.k;
    var b := cfg.blocks[k];
    BlockTables(cfg, needed, t, k);
    match s
    case PhiSite(_, j) =>
      PhiSiteSpan(cfg, needed, t.phiStored[b], t.renamedStored[b], t.renamedLoaded[b], k, j, name, v);
    case StoreSite(_, i) =>
      StoreSiteSpan(cfg, needed, t.phiStored[b], t.renamedStored[b], t.renamedLoaded[b], k, i, name, v);
  }

  lemma BlockTables(cfg: Cfg, needed: map<BlockId, seq<string>>, t: SsaTables, k: nat)
    requires Covers(cfg, needed) && k < |cfg.blocks|
    requires RenamedUpTo(cfg, needed, t.phiStored, t.renamedStored, t.renamedLoaded, |cfg.blocks|)
    requires cfg.blocks[k] in t.phiStored
    ensures var b := cfg.blocks[k];
            b in t.phiStored && b in t.renamedStored && b in t.renamedLoaded &&
            BlockRenamed(needed[b], cfg.stmts[b], DefsBefore(cfg, needed, k),
                         t.phiStored[b], t.renamedStored[b], t.renamedLoaded[b])
  {
    // mentioning the table of block `k` instantiates `RenamedUpTo` there
    assert t.phiStored[cfg.blocks[k]] == t.phiStored[cfg.blocks[k]];
  }

  lemma PhiSiteSpan(cfg: Cfg, needed: map<BlockId, seq<string>>, phiDefs: seq<PhiDef>,
                    stored: seq<map<string, int>>, loaded: seq<map<string, set<int>>>,
                    k: nat, j: nat, name: string, v: int)
    requires Covers(cfg, needed) && k < |cfg.blocks|
    requires BlockRenamed(needed[cfg.blocks[k]], cfg.stmts[cfg.blocks[k]], DefsBefore(cfg, needed, k),
                          phiDefs, stored, loaded)
    requires j < |phiDefs| && phiDefs[j] == PhiDef(name, v)
    ensures SiteIn(cfg, needed, PhiSite(k, j))
    ensures var all, lo, hi := DefsBefore(cfg, needed, |cfg.blocks|), SiteBegin(cfg, needed, PhiSite(k, j)),
                               SiteEnd(cfg, needed, PhiSite(k, j));
            lo <= hi <= |all| && name in all[lo..hi] && v == Count(name, all[..hi]) - 1
  {
    var b := cfg.blocks[k];
    var pre, phis, stmts := DefsBefore(cfg, needed, k), needed[b], cfg.stmts[b];
    DefsBeforePrefix(cfg, needed, k + 1, |cfg.blocks|);
    assert DefsBefore(cfg, needed, k + 1) == pre + (phis + StmtDefs(stmts));
    var lo, hi := |pre| + j, |pre| + j + 1;
    assert SiteBegin(cfg, needed, PhiSite(k, j)) == lo && SiteEnd(cfg, needed, PhiSite(k, j)) == hi;
    SpanOfPhi(DefsBefore(cfg, needed, |cfg.blocks|), pre, phis, StmtDefs(stmts), j, name, v, lo, hi);
  }

  lemma StoreSiteSpan(cfg: Cfg, needed: map<BlockId, seq<string>>, phiDefs: seq<PhiDef>,
                      stored: seq<map<string, int>>, loaded: seq<map<string, set<int>>>,
                      k: nat, i: nat, name: string, v: int)
    requires Covers(cfg, needed) && k < |cfg.blocks|
    requires BlockRenamed(needed[cfg.blocks[k]], cfg.stmts[cfg.blocks[k]], DefsBefore(cfg, needed, k),
                          phiDefs, stored, loaded)
    requires i < |stored| && name in stored[i] && stored[i][name] == v
    ensures SiteIn(cfg, needed, StoreSite(k, i))
    ensures var all, lo, hi := DefsBefore(cfg, needed, |cfg.blocks|), SiteBegin(cfg, needed, StoreSite(k, i)),
                               SiteEnd(cfg, needed, StoreSite(k, i));
            lo <= hi <= |all| && name in all[lo..hi] && v == Count(name, all[..hi]) - 1
  {
    var b := cfg.blocks[k];
    var pre, phis, stmts := DefsBefore(cfg, needed, k), needed[b], cfg.stmts[b];
    DefsBeforePrefix(cfg, needed, k + 1, |cfg.blocks|);
    assert DefsBefore(cfg, needed, k + 1) == pre + (phis + StmtDefs(stmts));
    StmtDefsPrefix(stmts, i + 1);
    assert stmts[..i + 1][..i] == stmts[..i];
    assert stored[i] == StoreMap(stmts[i].stored, pre + phis + StmtDefs(stmts[..i]));
    var lo := |pre| + |phis| + |StmtDefs(stmts[..i])|;
    var hi := lo + |stmts[i].stored|;
    assert SiteBegin(cfg, needed, StoreSite(k, i)) == lo && SiteEnd(cfg, needed, StoreSite(k, i)) == hi;
    SpanOfStore(DefsBefore(cfg, needed, |cfg.blocks|), pre, phis, StmtDefs(stmts[..i]), stmts[i].stored,
                StmtDefs(stmts), name, v, lo, hi);
  }

  lemma SpanOfPhi(all: seq<string>, pre: seq<string>, phis: seq<string>, tail: seq<string>,
                  j: nat, name: string, v: int, lo: nat, hi: nat)
    requires |pre + (phis + tail)| <= |all| && all[..|pre + (phis + tail)|] == pre + (phis + tail)
    requires j < |phis| && phis[j] == name && v == Count(name, pre + phis[..j])
    requires lo == |pre| + j && hi == lo + 1
    ensures lo <= hi <= |all| && name in all[lo..hi] && v == Count(name, all[..hi]) - 1
  {
    var block := pre + (phis + tail);
    assert all[..|pre| + j + 1] == block[..|pre| + j + 1] == (pre + phis[..j]) + [name];
    assert all[|pre| + j] == name;
    CountAppend(name, pre + phis[..j], [name]);
    assert [name][..0] == [];
  }

  lemma SpanOfStore(all: seq<string>, pre: seq<string>, phis: seq<string>, defsBefore: seq<string>,
                    st: seq<string>, defs: seq<string>, name: string, v: int, lo: nat, hi: nat)
    requires |pre + (phis + defs)| <= |all| && all[..|pre + (phis + defs)|] == pre + (phis + defs)
    requires |defsBefore| + |st| <= |defs| && defs[..|defsBefore| + |st|] == defsBefore + st
    requires name in st && v == Count(name, pre + phis + defsBefore + st) - 1
    requires lo == |pre| + |phis| + |defsBefore| && hi == lo + |st|
    ensures lo <= hi <= |all| && name in all[lo..hi] && v == Count(name, all[..hi]) - 1
  {
    var front := pre + phis;
    AppendAssoc(pre, phis, defs);
    TakeOfTake(all, front + defs, hi);
    TakeOfAppend(front, defs, |defsBefore| + |st|);
    SpanFromPrefix(all, front, defsBefore, st, name, v, lo, hi);
  }

  lemma SpanFromPrefix(all: seq<string>, x: seq<string>, y: seq<string>, st: seq<string>,
                       name: string, v: int, lo: nat, hi: nat)
    requires hi <= |all| && all[..hi] == x + (y + st) && lo == |x| + |y| && hi == lo + |st|
    requires name in st && v == Count(name, x + y + st) - 1
    ensures lo <= hi <= |all| && name in all[lo..hi] && v == Count(name, all[..hi]) - 1
  {
    AppendAssoc(x, y, st);
    assert all[lo..hi] == (x + y + st)[lo..] == st;
  }

  lemma AppendAssoc(a: seq<string>, b: seq<string>, c: seq<string>)
    ensures a + (b + c) == (a + b) + c
  {
  }

  lemma TakeOfTake(all: seq<string>, block: seq<string>, hi: nat)
    requires |block| <= |all| && all[..|block|] == block && hi <= |block|
    ensures all[..hi] == block[..hi]
  {
    assert all[..hi] == all[..|block|][..hi];
  }

  lemma TakeOfAppend(a: seq<string>, d: seq<string>, n: nat)
    requires n <= |d|
    ensures (a + d)[..|a| + n] == a + d[..n]
  {
  }

  /** Two different sites occupy disjoint stretches of the renaming order. */
  lemma SitesApart(cfg: Cfg, needed: map<BlockId, seq<string>>, s: Site, s': Site)
    requires Covers(cfg, needed) && SiteIn(cfg, needed, s) && SiteIn(cfg, needed, s')
    requires s.k < s'.k || (s.k == s'.k && s.PhiSite? && s'.PhiSite? && s.j < s'.j) ||
             (s.k == s'.k && s.PhiSite? && s'.StoreSite?) ||
             (s.k == s'.k && s.StoreSite? && s'.StoreSite? && s.i < s'.i)
    ensures SiteEnd(cfg, needed, s) <= SiteBegin(cfg, needed, s')
  {
    var b := cfg.blocks[s.k];
    var stmts := cfg.stmts[b];
    if s.StoreSite? {
      StmtDefsPrefix(stmts, s.i + 1);
      assert stmts[..s.i + 1][..s.i] == stmts[..s.i];
    }
    if s.k < s'.k {
      DefsBeforePrefix(cfg, needed, s.k + 1, s'.k);
    } else if s.StoreSite? {
      StmtDefsPrefix(stmts[..s'.i], s.i + 1);
      assert stmts[..s'.i][..s.i + 1] == stmts[..s.i + 1];
    }
  }

  /** Of two stretches of the renaming order, the later one holding `name`
      counts more definitions of it up to its end. */
  lemma CountLater(name: string, all: seq<string>, hi: nat, lo': nat, hi': nat)
    requires hi <= lo' <= hi' <= |all| && name in all[lo'..hi']
    ensures Count(name, all[..hi]) < Count(name, all[..hi'])
  {
    assert all[..hi'] == all[..hi] + all[hi..lo'] + all[lo'..hi'];
    CountAppend(name, all[..hi] + all[hi..lo'], all[lo'..hi']);
    CountAppend(name, all[..hi], all[hi..lo']);
    CountZeroNotIn(name, all[lo'..hi']);
  }

  /**
   * After the renaming, every (name, version) pair has one definition site in
   * the whole program: no two phis, no two statements and no phi and
   * statement, in the same block or in different blocks, define the same
   * version of a name.
   */
  lemma DefinitionSitesUnique(cfg: Cfg, needed: map<BlockId, seq<string>>, t: SsaTables,
                              s: Site, s': Site, name: string, v: int)
    requires Covers(cfg, needed) && t.renamedStored.Keys == t.phiStored.Keys
    requires RenamedUpTo(cfg, needed, t.phiStored, t.renamedStored, t.renamedLoaded, |cfg.blocks|)
    requires DefinesVersion(cfg, t, s, name, v) && DefinesVersion(cfg, t, s', name, v)
    ensures s == s'
  {
    var all := DefsBefore(cfg, needed, |cfg.blocks|);
    SiteSpan(cfg, needed, t, s, name, v);
    SiteSpan(cfg, needed, t, s', name, v);
    if s != s' {
      var first, second := s, s';
      if s'.k < s.k || (s'.k == s.k && s'.PhiSite? && (s.StoreSite? || s'.j < s.j)) ||
         (s'.k == s.k && s'.StoreSite? && s.StoreSite? && s'.i < s.i) {
        first, second := s', s;
      }
      SitesApart(cfg, needed, first, second);
      CountLater(name, all, SiteEnd(cfg, needed, first), SiteBegin(cfg, needed, second), SiteEnd(cfg, needed, second));
    }
  }

  /** A load of a name the same statement also stores sees an older version
      than the store makes; with a single store of a defined name it sees
      exactly the version before (`b = b + 1`). */
  lemma LoadBeforeStore(st: StmtIdents, pre: seq<string>, n: string)
    requires n in st.loaded && n in st.stored
    ensures forall v :: v in LoadMap(st.loaded, pre)[n] ==> v < StoreMap(st.stored, pre)[n]
    ensures n in pre && Count(n, st.stored) == 1 ==>
              LoadMap(st.loaded, pre)[n] == {StoreMap(st.stored, pre)[n] - 1}
    ensures n !in pre ==> LoadMap(st.loaded, pre)[n] == {}
  {
    CountAppend(n, pre, st.stored);
    CountZeroNotIn(n, st.stored);
  }

  lemma {:induction false} StmtDefsGrow(stmts: seq<StmtIdents>, i: nat, i': nat, n: string)
    requires i < i' <= |stmts|
    ensures Count(n, StmtDefs(stmts[..i]) + stmts[i].stored) <= Count(n, StmtDefs(stmts[..i']))
    decreases i' - i
  {
    if i' == i + 1 {
      assert stmts[..i + 1][..i] == stmts[..i];
    } else {
      StmtDefsGrow(stmts, i, i' - 1, n);
      assert stmts[..i'][..i' - 1] == stmts[..i' - 1];
      CountAppend(n, StmtDefs(stmts[..i' - 1]), stmts[i' - 1].stored);
    }
  }

  lemma StoresAscending(name: string, stmts: seq<StmtIdents>, afterPhis: seq<string>,
                        stored: seq<map<string, int>>, i: nat, i': nat)
    requires |stored| == |stmts|
    requires forall i :: 0 <= i < |stmts| ==> stored[i] == StoreMap(stmts[i].stored, afterPhis + StmtDefs(stmts[..i]))
    requires i < i' < |stored| && name in stored[i] && name in stored[i']
    ensures stored[i][name] < stored[i'][name]
  {
    var a, si, si' := afterPhis, stmts[i].stored, stmts[i'].stored;
    var d, d' := StmtDefs(stmts[..i]), StmtDefs(stmts[..i']);
    assert stored[i][name] == Count(name, a + d + si) - 1;
    assert stored[i'][name] == Count(name, a + d' + si') - 1;
    assert Count(name, a + d + si) == Count(name, a) + Count(name, d + si) by {
      assert a + d + si == a + (d + si);
      CountAppend(name, a, d + si);
    }
    assert Count(name, d + si) <= Count(name, d') by {
      StmtDefsGrow(stmts, i, i', name);
    }
    assert Count(name, a + d' + si') == Count(name, a) + Count(name, d') + Count(name, si') by {
      CountAppend(name, a + d', si');
      CountAppend(name, a, d');
    }
    assert Count(name, si') > 0 by {
      assert name in si';
      CountZeroNotIn(name, si');
    }
  }

  lemma PhisAscending(name: string, phiVars: seq<string>, pre: seq<string>, phiDefs: seq<PhiDef>, j: nat, j': nat)
    requires |phiDefs| == |phiVars|
    requires forall j :: 0 <= j < |phiVars| ==> phiDefs[j] == PhiDef(phiVars[j], Count(phiVars[j], pre + phiVars[..j]))
    requires j < j' < |phiDefs| && phiDefs[j].name == name && phiDefs[j'].name == name
    ensures phiDefs[j].version < phiDefs[j'].version
  {
    assert (pre + phiVars[..j'])[..|pre| + j] == pre + phiVars[..j];
    CountBeforeOccurrence(name, pre + phiVars[..j'], |pre| + j);
  }

  lemma PhisBelowStores(name: string, phiVars: seq<string>, stmts: seq<StmtIdents>, pre: seq<string>,
                        phiDefs: seq<PhiDef>, stored: seq<map<string, int>>, j: nat, i: nat)
    requires |phiDefs| == |phiVars| && |stored| == |stmts|
    requires forall j :: 0 <= j < |phiVars| ==> phiDefs[j] == PhiDef(phiVars[j], Count(phiVars[j], pre + phiVars[..j]))
    requires forall i :: 0 <= i < |stmts| ==> stored[i] == StoreMap(stmts[i].stored, pre + phiVars + StmtDefs(stmts[..i]))
    requires j < |phiDefs| && i < |stored| && phiDefs[j].name == name && name in stored[i]
    ensures phiDefs[j].version < stored[i][name]
  {
    var afterPhis := pre + phiVars;
    assert afterPhis[..|pre| + j] == pre + phiVars[..j];
    CountBeforeOccurrence(name, afterPhis, |pre| + j);
    var before := afterPhis + StmtDefs(stmts[..i]);
    CountAppend(name, afterPhis, StmtDefs(stmts[..i]));
    CountAppend(name, before, stmts[i].stored);
    CountZeroNotIn(name, stmts[i].stored);
  }

  /** Renaming a block makes its versions of every name rise: phis first, in
      order, then statement stores, in order. */
  lemma BlockVersionsAscending(name: string, phiVars: seq<string>, stmts: seq<StmtIdents>, pre: seq<string>,
                               phiDefs: seq<PhiDef>, stored: seq<map<string, int>>,
                               loaded: seq<map<string, set<int>>>)
    requires BlockRenamed(phiVars, stmts, pre, phiDefs, stored, loaded)
    ensures VersionsAscending(name, stored, phiDefs)
  {
    forall i, i' | 0 <= i < i' < |stored| && name in stored[i] && name in stored[i']
      ensures stored[i][name] < stored[i'][name]
    {
      StoresAscending(name, stmts, pre + phiVars, stored, i, i');
    }
    forall j, j' | 0 <= j < j' < |phiDefs| && phiDefs[j].name == name && phiDefs[j'].name == name
      ensures phiDefs[j].version < phiDefs[j'].version
    {
      PhisAscending(name, phiVars, pre, phiDefs, j, j');
    }
    forall j, i | 0 <= j < |phiDefs| && 0 <= i < |stored| && phiDefs[j].name == name && name in stored[i]
      ensures phiDefs[j].version < stored[i][name]
    {
      PhisBelowStores(name, phiVars, stmts, pre, phiDefs, stored, j, i);
    }
  }

  /**
   * After the renaming, the corrected predecessor scan of any block hands on
   * that block's highest version of the name: the last definition of the
   * name in the block.
   */
  lemma RenamedBlockHandsOnHighest(cfg: Cfg, needed: map<BlockId, seq<string>>, t: SsaTables,
                                   k: nat, name: string)
    requires Covers(cfg, needed) && k < |cfg.blocks|
    requires t.renamedStored.Keys == t.phiStored.Keys == Elems(cfg.blocks)
    requires RenamedUpTo(cfg, needed, t.phiStored, t.renamedStored, t.renamedLoaded, |cfg.blocks|)
    ensures var b := cfg.blocks[k];
      var r := LiveOut(PhisThenStores, name, t.renamedStored, t.phiStored, b);
      (forall i :: 0 <= i < |t.renamedStored[b]| && name in t.renamedStored[b][i] ==> t.renamedStored[b][i][name] <= r) &&
      (forall j :: 0 <= j < |t.phiStored[b]| && t.phiStored[b][j].name == name ==> t.phiStored[b][j].version <= r)
  {
    var b := cfg.blocks[k];
    assert b in t.phiStored;
    BlockVersionsAscending(name, needed[b], cfg.stmts[b], DefsBefore(cfg, needed, k),
                           t.phiStored[b], t.renamedStored[b], t.renamedLoaded[b]);
    LiveOutIsHighest(name, t.renamedStored[b], t.phiStored[b]);
  }
}
