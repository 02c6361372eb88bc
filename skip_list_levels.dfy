/**
 * Changes to the number of levels: the new sentinel level `put` stacks on top
 * when a tower outgrows the list, and the empty top level `remove` drops.
 * Also the frame lemma every other step uses for the levels it does not touch.
 */
module SkipListLevels {
  import opened Wrappers
  import opened Entries
  import opened SkipListShape

  /**
   * A level whose own nodes are untouched, whose neighbouring levels are the
   * same, and whose neighbours' nodes keep their keys, keeps its part of
   * the invariant. The hole may move from level m - 1 to level m when L is
   * at least two levels away from m.
   */
  lemma LevelOkFrame<V>(nodes: Arena<V>, lvl: seq<nat>, levels: seq<Level>, hole: Hole,
                        nodes': Arena<V>, lvl': seq<nat>, levels': seq<Level>, hole': Hole, L: nat)
    requires WellIndexed(nodes, lvl, levels) && WellIndexed(nodes', lvl', levels')
    requires L < |levels| && L < |levels'| && LevelOk(nodes, lvl, levels, hole, L)
    requires SameKeys(nodes, nodes') && forall n :: 0 <= n < |lvl| ==> lvl'[n] == lvl[n]
    requires levels'[L] == levels[L] && (L > 0 ==> levels'[L - 1] == levels[L - 1])
    requires (L + 1 < |levels|) == (L + 1 < |levels'|)
    requires L + 1 < |levels| ==> levels'[L + 1] == levels[L + 1]
    requires forall j :: 0 <= j < |levels[L]| ==> nodes'[levels[L][j]] == nodes[levels[L][j]]
    requires hole' == hole ||
      (hole'.Hole? &&
       ((hole == NoHole && hole'.m == 0) || (hole'.m > 0 && hole == Hole(hole'.x, hole'.m - 1))) &&
       (L + 1 < hole'.m || L > hole'.m + 1))
    ensures LevelOk(nodes', lvl', levels', hole', L)
  {
    var lv := levels[L];
    KeysOfSameKeys(nodes, nodes', lv);
    if L > 0 {
      KeysOfSameKeys(nodes, nodes', levels[L - 1]);
    }
    if L + 1 < |levels| {
      KeysOfSameKeys(nodes, nodes', levels[L + 1]);
    }
    LinkedFrame(nodes, nodes', lv);
  }

  /**
   * The entries `put` writes when it stacks a new level: p1 = |nodes| and
   * p2 = |nodes| + 1 are fresh sentinels above the current head h and tail t.
   */
  ghost predicate Raised<V>(nodes: Arena<V>, levels: seq<Level>, nodes': Arena<V>)
    requires |levels| >= 1 && |levels[|levels| - 1]| >= 2
  {
    var top := levels[|levels| - 1];
    var h := top[0];
    var t := top[|top| - 1];
    var p1 := |nodes|;
    var p2 := |nodes| + 1;
    |nodes'| == |nodes| + 2 && h < |nodes| && t < |nodes| &&
    nodes'[p1] == Entry(NegInf, None, None, Some(h), None, Some(p2)) &&
    nodes'[p2] == Entry(PosInf, None, None, Some(t), Some(p1), None) &&
    nodes'[h] == nodes[h].(up := Some(p1)) &&
    nodes'[t] == nodes[t].(up := Some(p2)) &&
    forall n :: 0 <= n < |nodes| && n != h && n != t ==> nodes'[n] == nodes[n]
  }

  /** Stacking an empty sentinel level on top keeps the invariant. */
  lemma NewTopOk<V>(nodes: Arena<V>, lvl: seq<nat>, levels: seq<Level>, nodes': Arena<V>)
    requires Inv(nodes, lvl, levels, NoHole)
    requires |levels[|levels| - 1]| >= 2 && Raised(nodes, levels, nodes')
    ensures Inv(nodes', lvl + [|levels|, |levels|], levels + [[|nodes|, |nodes| + 1]], NoHole)
    ensures KeysOf(nodes', [|nodes|, |nodes| + 1]) == [NegInf, PosInf]
    ensures forall L :: 0 <= L < |levels| ==> KeysOf(nodes', levels[L]) == KeysOf(nodes, levels[L])
  {
    var levels' := levels + [[|nodes|, |nodes| + 1]];
    var lvl' := lvl + [|levels|, |levels|];
    assert forall L :: 0 <= L < |levels| ==> KeysOf(nodes', levels[L]) == KeysOf(nodes, levels[L]) by {
      assert SameLabels(nodes, nodes');
      forall L | 0 <= L < |levels| ensures KeysOf(nodes', levels[L]) == KeysOf(nodes, levels[L]) {
        KeysOfSameKeys(nodes, nodes', levels[L]);
      }
    }
    forall L | 0 <= L < |levels'| ensures LevelOk(nodes', lvl', levels', NoHole, L) {
      NewTopLevel(nodes, lvl, levels, nodes', L);
    }
  }

  lemma NewTopLevel<V>(nodes: Arena<V>, lvl: seq<nat>, levels: seq<Level>, nodes': Arena<V>, L: nat)
    requires Inv(nodes, lvl, levels, NoHole)
    requires |levels[|levels| - 1]| >= 2 && Raised(nodes, levels, nodes') && L <= |levels|
    ensures WellIndexed(nodes', lvl + [|levels|, |levels|], levels + [[|nodes|, |nodes| + 1]])
    ensures LevelOk(nodes', lvl + [|levels|, |levels|], levels + [[|nodes|, |nodes| + 1]], NoHole, L)
  {
    var T := |levels| - 1;
    LevelOkAt(nodes, lvl, levels, NoHole, T);
    SentinelFacts(nodes, lvl, levels, T);
    NewTopWellIndexed(nodes, lvl, levels, nodes');
    if L < T {
      LevelOkAt(nodes, lvl, levels, NoHole, L);
      NewTopFar(nodes, lvl, levels, nodes', L);
    } else if L == T {
      NewTopBelow(nodes, lvl, levels, nodes', L);
    } else {
      NewTopNew(nodes, lvl, levels, nodes', L);
    }
  }

  lemma NewTopWellIndexed<V>(nodes: Arena<V>, lvl: seq<nat>, levels: seq<Level>, nodes': Arena<V>)
    requires WellIndexed(nodes, lvl, levels)
    requires |levels[|levels| - 1]| >= 2 && Raised(nodes, levels, nodes')
    ensures SameLabels(nodes, nodes')
    ensures WellIndexed(nodes', lvl + [|levels|, |levels|], levels + [[|nodes|, |nodes| + 1]])
  {
  }

  /** Levels below the old top are untouched. */
  lemma NewTopFar<V>(nodes: Arena<V>, lvl: seq<nat>, levels: seq<Level>, nodes': Arena<V>, L: nat)
    requires WellIndexed(nodes, lvl, levels) && L + 1 < |levels|
    requires |levels[|levels| - 1]| >= 2 && Raised(nodes, levels, nodes')
    requires lvl[levels[|levels| - 1][0]] == |levels| - 1
    requires lvl[levels[|levels| - 1][|levels[|levels| - 1]| - 1]] == |levels| - 1
    requires LevelOk(nodes, lvl, levels, NoHole, L)
    requires SameLabels(nodes, nodes')
    requires WellIndexed(nodes', lvl + [|levels|, |levels|], levels + [[|nodes|, |nodes| + 1]])
    ensures LevelOk(nodes', lvl + [|levels|, |levels|], levels + [[|nodes|, |nodes| + 1]], NoHole, L)
  {
    forall j | 0 <= j < |levels[L]| ensures nodes'[levels[L][j]] == nodes[levels[L][j]] {
      assert lvl[levels[L][j]] == L;
    }
    LevelOkFrame(nodes, lvl, levels, NoHole,
                 nodes', lvl + [|levels|, |levels|], levels + [[|nodes|, |nodes| + 1]], NoHole, L);
  }

  /** The new sentinel level itself. */
  lemma NewTopNew<V>(nodes: Arena<V>, lvl: seq<nat>, levels: seq<Level>, nodes': Arena<V>, L: nat)
    requires WellIndexed(nodes, lvl, levels) && L == |levels|
    requires |levels[|levels| - 1]| >= 2 && Raised(nodes, levels, nodes')
    requires LevelShape(nodes, lvl, levels, L - 1)
    requires WellIndexed(nodes', lvl + [|levels|, |levels|], levels + [[|nodes|, |nodes| + 1]])
    ensures LevelOk(nodes', lvl + [|levels|, |levels|], levels + [[|nodes|, |nodes| + 1]], NoHole, L)
  {
    var levels' := levels + [[|nodes|, |nodes| + 1]];
    var top := levels[L - 1];
    assert KeysOf(nodes', levels'[L]) == [NegInf, PosInf];
    assert Linked(nodes', levels'[L]) by {
      assert LinkedAt(nodes', levels'[L], 0);
      assert LinkedAt(nodes', levels'[L], 1);
    }
    assert top[0] in levels'[L - 1] && top[|top| - 1] in levels'[L - 1];
  }

  /** The old top level under the new sentinel level. */
  lemma NewTopBelow<V>(nodes: Arena<V>, lvl: seq<nat>, levels: seq<Level>, nodes': Arena<V>, L: nat)
    requires WellIndexed(nodes, lvl, levels) && L + 1 == |levels|
    requires |levels[|levels| - 1]| >= 2 && Raised(nodes, levels, nodes')
    requires LevelOk(nodes, lvl, levels, NoHole, L)
    requires SameLabels(nodes, nodes')
    requires WellIndexed(nodes', lvl + [|levels|, |levels|], levels + [[|nodes|, |nodes| + 1]])
    ensures LevelOk(nodes', lvl + [|levels|, |levels|], levels + [[|nodes|, |nodes| + 1]], NoHole, L)
  {
    var levels' := levels + [[|nodes|, |nodes| + 1]];
    var top := levels[L];
    KeysOfSameKeys(nodes, nodes', top);
    if L > 0 {
      KeysOfSameKeys(nodes, nodes', levels[L - 1]);
    }
    assert KeysOf(nodes', levels'[L + 1]) == [NegInf, PosInf];
    NewTopBelowNodes(nodes, lvl, levels, nodes', L);
    LinkedFrame(nodes, nodes', top);
    forall j | 0 <= j < |top|
      ensures nodes'[top[j]].key in KeysOf(nodes', levels'[L + 1]) ==>
        nodes'[top[j]].up.Some? && nodes'[top[j]].up.value in levels'[L + 1] &&
        nodes'[nodes'[top[j]].up.value].key == nodes'[top[j]].key
      ensures nodes'[top[j]].key !in KeysOf(nodes', levels'[L + 1]) ==> nodes'[top[j]].up == None
    {
      assert levels'[L + 1] == [|nodes|, |nodes| + 1];
    }
  }

  /** Under the new level only the `up` links of the old sentinels change. */
  lemma NewTopBelowNodes<V>(nodes: Arena<V>, lvl: seq<nat>, levels: seq<Level>, nodes': Arena<V>, L: nat)
    requires WellIndexed(nodes, lvl, levels) && L + 1 == |levels|
    requires |levels[|levels| - 1]| >= 2 && Raised(nodes, levels, nodes')
    requires LevelOk(nodes, lvl, levels, NoHole, L)
    ensures forall j :: 0 <= j < |levels[L]| ==>
      nodes'[levels[L][j]] == nodes[levels[L][j]].(up := nodes'[levels[L][j]].up)
    ensures nodes'[levels[L][0]].up == Some(|nodes|)
    ensures nodes'[levels[L][|levels[L]| - 1]].up == Some(|nodes| + 1)
    ensures forall j :: 0 < j < |levels[L]| - 1 ==>
      nodes'[levels[L][j]].up == None && nodes[levels[L][j]].key != NegInf && nodes[levels[L][j]].key != PosInf
  {
    var top := levels[L];
    var ks := KeysOf(nodes, top);
    AscendingDistinct(ks);
    forall j | 0 < j < |top| - 1
      ensures nodes'[top[j]] == nodes[top[j]] && nodes[top[j]].up == None
      ensures nodes[top[j]].key != NegInf && nodes[top[j]].key != PosInf
    {
      assert ks[j] != ks[0] && ks[j] != ks[|top| - 1];
    }
  }

  /**
   * The entries `remove` writes when it drops the top level, which holds only
   * its two sentinels h and t above p1 and p2: all links of h and t become
   * null, and so do the `up` links of p1 and p2.
   */
  ghost predicate Trimmed<V>(nodes: Arena<V>, levels: seq<Level>, nodes': Arena<V>)
    requires |levels| >= 2 && |levels[|levels| - 1]| == 2
  {
    var T := |levels| - 1;
    var h, t := levels[T][0], levels[T][1];
    |levels[T - 1]| >= 2 &&
    var p1, p2 := levels[T - 1][0], levels[T - 1][|levels[T - 1]| - 1];
    |nodes'| == |nodes| && h < |nodes| && t < |nodes| && p1 < |nodes| && p2 < |nodes| &&
    nodes'[h] == nodes[h].(right := None, down := None) &&
    nodes'[t] == nodes[t].(left := None, down := None) &&
    nodes'[p1] == nodes[p1].(up := None) &&
    nodes'[p2] == nodes[p2].(up := None) &&
    forall n :: 0 <= n < |nodes| && n != h && n != t && n != p1 && n != p2 ==> nodes'[n] == nodes[n]
  }

  /** Dropping an empty top level keeps the invariant and detaches its two sentinels. */
  lemma TrimOk<V>(nodes: Arena<V>, lvl: seq<nat>, levels: seq<Level>, nodes': Arena<V>)
    requires Inv(nodes, lvl, levels, NoHole) && |levels| >= 2 && |levels[|levels| - 1]| == 2
    requires Trimmed(nodes, levels, nodes')
    ensures Inv(nodes', lvl, levels[..|levels| - 1], NoHole)
    ensures Detached(nodes'[levels[|levels| - 1][0]]) && Detached(nodes'[levels[|levels| - 1][1]])
    ensures forall L :: 0 <= L < |levels| - 1 ==> KeysOf(nodes', levels[L]) == KeysOf(nodes, levels[L])
  {
    var T := |levels| - 1;
    var levels' := levels[..T];
    assert forall L :: 0 <= L < T ==> KeysOf(nodes', levels[L]) == KeysOf(nodes, levels[L]) by {
      assert SameLabels(nodes, nodes');
      forall L | 0 <= L < T ensures KeysOf(nodes', levels[L]) == KeysOf(nodes, levels[L]) {
        KeysOfSameKeys(nodes, nodes', levels[L]);
      }
    }
    LevelOkAt(nodes, lvl, levels, NoHole, T);
    TrimDetached(nodes, lvl, levels, nodes');
    TrimFarAll(nodes, lvl, levels, nodes');
  }

  lemma TrimFarAll<V>(nodes: Arena<V>, lvl: seq<nat>, levels: seq<Level>, nodes': Arena<V>)
    requires Inv(nodes, lvl, levels, NoHole) && |levels| >= 2 && |levels[|levels| - 1]| == 2
    requires Trimmed(nodes, levels, nodes')
    ensures Inv(nodes', lvl, levels[..|levels| - 1], NoHole)
  {
    var T := |levels| - 1;
    forall L | 0 <= L < T ensures LevelOk(nodes', lvl, levels[..T], NoHole, L) {
      TrimLevel(nodes, lvl, levels, nodes', L);
    }
  }

  lemma TrimLevel<V>(nodes: Arena<V>, lvl: seq<nat>, levels: seq<Level>, nodes': Arena<V>, L: nat)
    requires Inv(nodes, lvl, levels, NoHole) && |levels| >= 2 && |levels[|levels| - 1]| == 2
    requires Trimmed(nodes, levels, nodes') && L + 1 < |levels|
    ensures WellIndexed(nodes', lvl, levels[..|levels| - 1])
    ensures LevelOk(nodes', lvl, levels[..|levels| - 1], NoHole, L)
  {
    TrimTopFacts(nodes, lvl, levels);
    LevelOkAt(nodes, lvl, levels, NoHole, L);
    if L + 2 < |levels| {
      TrimFar(nodes, lvl, levels, nodes', L);
    } else {
      TrimBelow(nodes, lvl, levels, nodes', L);
    }
  }

  /** The sentinels of the two highest levels, when the top one is empty. */
  lemma TrimTopFacts<V>(nodes: Arena<V>, lvl: seq<nat>, levels: seq<Level>)
    requires Inv(nodes, lvl, levels, NoHole) && |levels| >= 2 && |levels[|levels| - 1]| == 2
    ensures KeysOf(nodes, levels[|levels| - 1]) == [NegInf, PosInf]
    ensures lvl[levels[|levels| - 1][0]] == |levels| - 1 && lvl[levels[|levels| - 1][1]] == |levels| - 1
    ensures |levels[|levels| - 2]| >= 2
    ensures lvl[levels[|levels| - 2][0]] == |levels| - 2
    ensures lvl[levels[|levels| - 2][|levels[|levels| - 2]| - 1]] == |levels| - 2
  {
    LevelOkAt(nodes, lvl, levels, NoHole, |levels| - 2);
    LevelOkAt(nodes, lvl, levels, NoHole, |levels| - 1);
    SentinelFacts(nodes, lvl, levels, |levels| - 2);
    SentinelFacts(nodes, lvl, levels, |levels| - 1);
  }

  /** The first and last node of a level are its sentinels and carry its level tag. */
  lemma SentinelFacts<V>(nodes: Arena<V>, lvl: seq<nat>, levels: seq<Level>, L: nat)
    requires WellIndexed(nodes, lvl, levels) && L < |levels| && LevelShape(nodes, lvl, levels, L)
    ensures |levels[L]| >= 2
    ensures nodes[levels[L][0]].key == NegInf && nodes[levels[L][|levels[L]| - 1]].key == PosInf
    ensures lvl[levels[L][0]] == L && lvl[levels[L][|levels[L]| - 1]] == L
    ensures |levels[L]| == 2 ==> KeysOf(nodes, levels[L]) == [NegInf, PosInf]
  {
  }

  /** The dropped level's sentinels end with every link null. */
  lemma TrimDetached<V>(nodes: Arena<V>, lvl: seq<nat>, levels: seq<Level>, nodes': Arena<V>)
    requires WellIndexed(nodes, lvl, levels) && |levels| >= 2 && |levels[|levels| - 1]| == 2
    requires LevelOk(nodes, lvl, levels, NoHole, |levels| - 1)
    requires Trimmed(nodes, levels, nodes')
    ensures Detached(nodes'[levels[|levels| - 1][0]]) && Detached(nodes'[levels[|levels| - 1][1]])
    ensures KeysOf(nodes, levels[|levels| - 1]) == [NegInf, PosInf]
  {
    var T := |levels| - 1;
    assert LinkedAt(nodes, levels[T], 0) && LinkedAt(nodes, levels[T], 1);
  }

  /** Levels more than one below the dropped level are untouched. */
  lemma TrimFar<V>(nodes: Arena<V>, lvl: seq<nat>, levels: seq<Level>, nodes': Arena<V>, L: nat)
    requires WellIndexed(nodes, lvl, levels) && |levels| >= 2 && |levels[|levels| - 1]| == 2
    requires Trimmed(nodes, levels, nodes') && L + 2 < |levels|
    requires LevelOk(nodes, lvl, levels, NoHole, L)
    requires lvl[levels[|levels| - 1][0]] == |levels| - 1 && lvl[levels[|levels| - 1][1]] == |levels| - 1
    requires lvl[levels[|levels| - 2][0]] == |levels| - 2
    requires lvl[levels[|levels| - 2][|levels[|levels| - 2]| - 1]] == |levels| - 2
    ensures WellIndexed(nodes', lvl, levels[..|levels| - 1])
    ensures LevelOk(nodes', lvl, levels[..|levels| - 1], NoHole, L)
  {
    var T := |levels| - 1;
    assert SameLabels(nodes, nodes');
    forall j | 0 <= j < |levels[L]| ensures nodes'[levels[L][j]] == nodes[levels[L][j]] {
      assert lvl[levels[L][j]] == L;
    }
    LevelOkFrame(nodes, lvl, levels, NoHole, nodes', lvl, levels[..T], NoHole, L);
  }

  /** The level under the dropped one becomes the top level. */
  lemma TrimBelow<V>(nodes: Arena<V>, lvl: seq<nat>, levels: seq<Level>, nodes': Arena<V>, L: nat)
    requires WellIndexed(nodes, lvl, levels) && |levels| >= 2 && |levels[|levels| - 1]| == 2
    requires L == |levels| - 2 && LevelOk(nodes, lvl, levels, NoHole, L)
    requires KeysOf(nodes, levels[|levels| - 1]) == [NegInf, PosInf]
    requires lvl[levels[|levels| - 1][0]] == |levels| - 1 && lvl[levels[|levels| - 1][1]] == |levels| - 1
    requires Trimmed(nodes, levels, nodes')
    ensures WellIndexed(nodes', lvl, levels[..|levels| - 1])
    ensures LevelOk(nodes', lvl, levels[..|levels| - 1], NoHole, L)
  {
    var levels' := levels[..L + 1];
    var below := levels[L];
    assert SameLabels(nodes, nodes');
    KeysOfSameKeys(nodes, nodes', below);
    if L > 0 {
      KeysOfSameKeys(nodes, nodes', levels[L - 1]);
    }
    assert WellIndexed(nodes', lvl, levels');
    TrimBelowNodes(nodes, lvl, levels, nodes', L);
    LinkedFrame(nodes, nodes', below);
  }

  /** Under the dropped level only the `up` links of the two sentinels change, to null. */
  lemma TrimBelowNodes<V>(nodes: Arena<V>, lvl: seq<nat>, levels: seq<Level>, nodes': Arena<V>, L: nat)
    requires WellIndexed(nodes, lvl, levels) && |levels| >= 2 && |levels[|levels| - 1]| == 2
    requires L == |levels| - 2 && LevelOk(nodes, lvl, levels, NoHole, L)
    requires KeysOf(nodes, levels[|levels| - 1]) == [NegInf, PosInf]
    requires lvl[levels[|levels| - 1][0]] == |levels| - 1 && lvl[levels[|levels| - 1][1]] == |levels| - 1
    requires Trimmed(nodes, levels, nodes')
    ensures forall j :: 0 <= j < |levels[L]| ==>
      nodes'[levels[L][j]] == nodes[levels[L][j]].(up := None)
  {
    var below := levels[L];
    var ks := KeysOf(nodes, below);
    AscendingDistinct(ks);
    forall j | 0 <= j < |below|
      ensures nodes'[below[j]] == nodes[below[j]].(up := None)
    {
      assert lvl[below[j]] == L;
      if 0 < j < |below| - 1 {
        assert ks[j] != ks[0] && ks[j] != ks[|below| - 1];
        assert ks[j] !in KeysOf(nodes, levels[L + 1]);
      }
    }
  }
}
