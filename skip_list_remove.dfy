/**
 * The steps of `remove`: unlinking the nodes of a key's tower level by level
 * from the bottom, which moves the hole up one level at a time, closing the
 * hole when the tower ends, and nulling the vertical links of the unlinked
 * nodes, which are on no level any more.
 */
module SkipListRemove {
  import opened Wrappers
  import opened Entries
  import opened SkipListShape
  import opened SkipListLevels

  /**
   * The links one unlink writes: the node t = levels[L][i] is taken out
   * between l = levels[L][i - 1] and r = levels[L][i + 1], and its own
   * `left` and `right` become null.
   */
  ghost predicate Unlinked<V>(nodes: Arena<V>, levels: seq<Level>, L: nat, i: nat, nodes': Arena<V>)
    requires L < |levels| && 0 < i < |levels[L]| - 1 && InArena(nodes, levels[L])
  {
    var l, t, r := levels[L][i - 1], levels[L][i], levels[L][i + 1];
    |nodes'| == |nodes| &&
    nodes'[l] == nodes[l].(right := Some(r)) &&
    nodes'[r] == nodes[r].(left := Some(l)) &&
    nodes'[t] == nodes[t].(left := None, right := None) &&
    forall n :: 0 <= n < |nodes| && n != l && n != t && n != r ==> nodes'[n] == nodes[n]
  }

  /**
   * What an unlink needs: the invariant with the key of t already gone from
   * every level below L (and nowhere else).
   */
  ghost predicate UnlinkPre<V>(nodes: Arena<V>, lvl: seq<nat>, levels: seq<Level>, L: nat, i: nat, nodes': Arena<V>) {
    L < |levels| && 0 < i < |levels[L]| - 1 && levels[L][i] < |nodes| &&
    var hole := if L == 0 then NoHole else Hole(nodes[levels[L][i]].key, L - 1);
    Inv(nodes, lvl, levels, hole) &&
    Unlinked(nodes, levels, L, i, nodes')
  }

  /** The levels after the unlink. */
  ghost function Removed(levels: seq<Level>, L: nat, i: nat): seq<Level>
    requires L < |levels| && i < |levels[L]|
  {
    levels[L := RemoveAt(levels[L], i)]
  }

  lemma RemoveBounded(ks: seq<Key>, i: nat)
    requires Bounded(ks) && 0 < i < |ks| - 1
    ensures Bounded(RemoveAt(ks, i))
  {
  }

  /** Linking lv[i - 1] to lv[i + 1] links the level with lv[i] removed. */
  lemma LinkedUnsplice<V>(nodes: Arena<V>, nodes': Arena<V>, lv: Level, i: nat)
    requires InArena(nodes, lv) && Linked(nodes, lv) && 0 < i < |lv| - 1
    requires InArena(nodes', lv)
    requires forall j :: 0 <= j < |lv| && j != i - 1 && j != i && j != i + 1 ==>
      nodes'[lv[j]].left == nodes[lv[j]].left && nodes'[lv[j]].right == nodes[lv[j]].right
    requires nodes'[lv[i - 1]].left == nodes[lv[i - 1]].left && nodes'[lv[i - 1]].right == Some(lv[i + 1])
    requires nodes'[lv[i + 1]].right == nodes[lv[i + 1]].right && nodes'[lv[i + 1]].left == Some(lv[i - 1])
    ensures InArena(nodes', RemoveAt(lv, i)) && Linked(nodes', RemoveAt(lv, i))
  {
    var lv' := RemoveAt(lv, i);
    forall j | 0 <= j < |lv'|
      ensures LinkedAt(nodes', lv', j)
    {
      if j < i {
        assert lv'[j] == lv[j] && LinkedAt(nodes, lv, j);
      } else {
        assert lv'[j] == lv[j + 1] && LinkedAt(nodes, lv, j + 1);
      }
    }
  }

  /** The nodes an unlink writes are on level L only; its key is on level L once. */
  lemma UnlinkFacts<V>(nodes: Arena<V>, lvl: seq<nat>, levels: seq<Level>, L: nat, i: nat, nodes': Arena<V>)
    requires UnlinkPre(nodes, lvl, levels, L, i, nodes')
    ensures nodes[levels[L][i]].key.Str?
    ensures lvl[levels[L][i - 1]] == L && lvl[levels[L][i]] == L && lvl[levels[L][i + 1]] == L
    ensures forall j :: 0 <= j < |levels[L]| && j != i ==> nodes[levels[L][j]].key != nodes[levels[L][i]].key
    ensures forall j :: 0 <= j < |levels[L]| && j != i - 1 && j != i && j != i + 1 ==>
      levels[L][j] != levels[L][i - 1] && levels[L][j] != levels[L][i] && levels[L][j] != levels[L][i + 1]
    ensures SameLabels(nodes, nodes') && |nodes'| == |nodes|
  {
    var hole := if L == 0 then NoHole else Hole(nodes[levels[L][i]].key, L - 1);
    LevelOkAt(nodes, lvl, levels, hole, L);
    LevelDistinct(nodes, lvl, levels, hole, L);
    var ks := KeysOf(nodes, levels[L]);
    assert ks[i] != ks[0] && ks[i] != ks[|ks| - 1];
  }

  /** The keys of every level after the unlink. */
  lemma UnlinkKeys<V>(nodes: Arena<V>, lvl: seq<nat>, levels: seq<Level>, L: nat, i: nat, nodes': Arena<V>)
    requires UnlinkPre(nodes, lvl, levels, L, i, nodes')
    ensures WellIndexed(nodes', lvl, Removed(levels, L, i))
    ensures forall L' :: 0 <= L' < |levels| && L' != L ==>
      KeysOf(nodes', Removed(levels, L, i)[L']) == KeysOf(nodes, levels[L'])
    ensures KeysOf(nodes', Removed(levels, L, i)[L]) == RemoveAt(KeysOf(nodes, levels[L]), i)
    ensures nodes[levels[L][i]].key !in KeysOf(nodes', Removed(levels, L, i)[L])
  {
    var levels' := Removed(levels, L, i);
    UnlinkFacts(nodes, lvl, levels, L, i, nodes');
    var ks := KeysOf(nodes, levels[L]);
    forall j | 0 <= j < |RemoveAt(ks, i)| ensures RemoveAt(ks, i)[j] != ks[i] {
      if j >= i {
        assert RemoveAt(ks, i)[j] == ks[j + 1];
      }
    }
    forall L' | 0 <= L' < |levels| && L' != L
      ensures InArena(nodes', levels'[L']) && KeysOf(nodes', levels'[L']) == KeysOf(nodes, levels[L'])
    {
      KeysOfSameKeys(nodes, nodes', levels[L']);
    }
    assert InArena(nodes', levels'[L]);
  }

  /** The level the node leaves. */
  lemma UnlinkSame<V>(nodes: Arena<V>, lvl: seq<nat>, levels: seq<Level>, L: nat, i: nat, nodes': Arena<V>, x: Key, hole: Hole)
    requires WellIndexed(nodes, lvl, levels) && L < |levels| && 0 < i < |levels[L]| - 1
    requires x == nodes[levels[L][i]].key && hole == (if L == 0 then NoHole else Hole(x, L - 1))
    requires LevelOk(nodes, lvl, levels, hole, L) && Unlinked(nodes, levels, L, i, nodes')
    requires forall j :: 0 <= j < |levels[L]| && j != i ==> nodes[levels[L][j]].key != x
    requires forall j :: 0 <= j < |levels[L]| && j != i - 1 && j != i && j != i + 1 ==>
      levels[L][j] != levels[L][i - 1] && levels[L][j] != levels[L][i] && levels[L][j] != levels[L][i + 1]
    requires SameLabels(nodes, nodes') && WellIndexed(nodes', lvl, Removed(levels, L, i))
    requires L + 1 < |levels| ==> KeysOf(nodes', Removed(levels, L, i)[L + 1]) == KeysOf(nodes, levels[L + 1])
    requires KeysOf(nodes', Removed(levels, L, i)[L]) == RemoveAt(KeysOf(nodes, levels[L]), i)
    requires x !in KeysOf(nodes', Removed(levels, L, i)[L])
    ensures LevelOk(nodes', lvl, Removed(levels, L, i), Hole(x, L), L)
  {
    UnlinkSameShape(nodes, lvl, levels, L, i, nodes', x, hole);
    UnlinkSameVertical(nodes, lvl, levels, L, i, nodes', x, hole);
    if L + 1 < |levels| {
      RemoveAtMembers(KeysOf(nodes, levels[L]), i);
    }
  }

  /** The `up` and `down` links of the level the node leaves. */
  lemma UnlinkSameVertical<V>(nodes: Arena<V>, lvl: seq<nat>, levels: seq<Level>, L: nat, i: nat, nodes': Arena<V>, x: Key, hole: Hole)
    requires WellIndexed(nodes, lvl, levels) && L < |levels| && 0 < i < |levels[L]| - 1
    requires x == nodes[levels[L][i]].key && hole == (if L == 0 then NoHole else Hole(x, L - 1))
    requires DownOk(nodes, lvl, levels, hole, L) && UpOk(nodes, lvl, levels, L)
    requires Unlinked(nodes, levels, L, i, nodes')
    requires forall j :: 0 <= j < |levels[L]| && j != i ==> nodes[levels[L][j]].key != x
    requires SameLabels(nodes, nodes') && WellIndexed(nodes', lvl, Removed(levels, L, i))
    requires L + 1 < |levels| ==> KeysOf(nodes', Removed(levels, L, i)[L + 1]) == KeysOf(nodes, levels[L + 1])
    ensures DownOk(nodes', lvl, Removed(levels, L, i), Hole(x, L), L)
    ensures UpOk(nodes', lvl, Removed(levels, L, i), L)
  {
    var lv := levels[L];
    forall j | 0 <= j < |lv| && j != i
      ensures nodes'[lv[j]].up == nodes[lv[j]].up && nodes'[lv[j]].down == nodes[lv[j]].down
      ensures nodes[lv[j]].key != x
    {
    }
  }

  lemma UnlinkSameShape<V>(nodes: Arena<V>, lvl: seq<nat>, levels: seq<Level>, L: nat, i: nat, nodes': Arena<V>, x: Key, hole: Hole)
    requires WellIndexed(nodes, lvl, levels) && L < |levels| && 0 < i < |levels[L]| - 1
    requires LevelShape(nodes, lvl, levels, L) && Unlinked(nodes, levels, L, i, nodes')
    requires forall j :: 0 <= j < |levels[L]| && j != i - 1 && j != i && j != i + 1 ==>
      levels[L][j] != levels[L][i - 1] && levels[L][j] != levels[L][i] && levels[L][j] != levels[L][i + 1]
    requires SameLabels(nodes, nodes') && WellIndexed(nodes', lvl, Removed(levels, L, i))
    requires KeysOf(nodes', Removed(levels, L, i)[L]) == RemoveAt(KeysOf(nodes, levels[L]), i)
    ensures LevelShape(nodes', lvl, Removed(levels, L, i), L)
  {
    var lv := levels[L];
    RemoveBounded(KeysOf(nodes, lv), i);
    LinkedUnsplice(nodes, nodes', lv, i);
  }

  /** The level under the one the node leaves (which no longer holds the key). */
  lemma UnlinkBelow<V>(nodes: Arena<V>, lvl: seq<nat>, levels: seq<Level>, L: nat, i: nat, nodes': Arena<V>, x: Key)
    requires WellIndexed(nodes, lvl, levels) && 0 < L < |levels| && 0 < i < |levels[L]| - 1
    requires x == nodes[levels[L][i]].key
    requires LevelOk(nodes, lvl, levels, Hole(x, L - 1), L - 1) && Unlinked(nodes, levels, L, i, nodes')
    requires lvl[levels[L][i - 1]] == L && lvl[levels[L][i]] == L && lvl[levels[L][i + 1]] == L
    requires SameLabels(nodes, nodes') && WellIndexed(nodes', lvl, Removed(levels, L, i))
    requires KeysOf(nodes', Removed(levels, L, i)[L - 1]) == KeysOf(nodes, levels[L - 1])
    requires L > 1 ==> KeysOf(nodes', Removed(levels, L, i)[L - 2]) == KeysOf(nodes, levels[L - 2])
    requires KeysOf(nodes', Removed(levels, L, i)[L]) == RemoveAt(KeysOf(nodes, levels[L]), i)
    requires x !in KeysOf(nodes', Removed(levels, L, i)[L])
    ensures LevelOk(nodes', lvl, Removed(levels, L, i), Hole(x, L), L - 1)
  {
    var lv := levels[L - 1];
    forall j | 0 <= j < |lv| ensures nodes'[lv[j]] == nodes[lv[j]] {
      assert lvl[lv[j]] == L - 1;
    }
    UnlinkBelowFrame(nodes, lvl, levels, L, i, nodes', x, lv);
    UnlinkBelowUp(nodes, lvl, levels, L, i, nodes', x, lv);
  }

  lemma UnlinkBelowFrame<V>(nodes: Arena<V>, lvl: seq<nat>, levels: seq<Level>, L: nat, i: nat, nodes': Arena<V>, x: Key, lv: Level)
    requires WellIndexed(nodes, lvl, levels) && 0 < L < |levels| && 0 < i < |levels[L]| - 1
    requires LevelShape(nodes, lvl, levels, L - 1) && DownOk(nodes, lvl, levels, Hole(x, L - 1), L - 1)
    requires x !in KeysOf(nodes, levels[L - 1])
    requires SameLabels(nodes, nodes') && WellIndexed(nodes', lvl, Removed(levels, L, i))
    requires lv == levels[L - 1] && forall j :: 0 <= j < |lv| ==> nodes'[lv[j]] == nodes[lv[j]]
    requires KeysOf(nodes', Removed(levels, L, i)[L - 1]) == KeysOf(nodes, levels[L - 1])
    ensures LevelShape(nodes', lvl, Removed(levels, L, i), L - 1)
    ensures DownOk(nodes', lvl, Removed(levels, L, i), Hole(x, L), L - 1)
    ensures x !in KeysOf(nodes', Removed(levels, L, i)[L - 1])
  {
    LinkedFrame(nodes, nodes', lv);
  }

  lemma UnlinkBelowUp<V>(nodes: Arena<V>, lvl: seq<nat>, levels: seq<Level>, L: nat, i: nat, nodes': Arena<V>, x: Key, lv: Level)
    requires WellIndexed(nodes, lvl, levels) && 0 < L < |levels| && 0 < i < |levels[L]| - 1
    requires x == nodes[levels[L][i]].key
    requires UpOk(nodes, lvl, levels, L - 1) && SubsetOk(nodes, lvl, levels, Hole(x, L - 1), L - 1)
    requires x !in KeysOf(nodes, levels[L - 1])
    requires SameLabels(nodes, nodes') && WellIndexed(nodes', lvl, Removed(levels, L, i))
    requires lv == levels[L - 1] && forall j :: 0 <= j < |lv| ==> nodes'[lv[j]] == nodes[lv[j]]
    requires KeysOf(nodes', Removed(levels, L, i)[L - 1]) == KeysOf(nodes, levels[L - 1])
    requires KeysOf(nodes', Removed(levels, L, i)[L]) == RemoveAt(KeysOf(nodes, levels[L]), i)
    requires x !in KeysOf(nodes', Removed(levels, L, i)[L])
    ensures UpOk(nodes', lvl, Removed(levels, L, i), L - 1)
    ensures SubsetOk(nodes', lvl, Removed(levels, L, i), Hole(x, L), L - 1)
  {
    RemoveAtMembers(KeysOf(nodes, levels[L]), i);
    RemoveAtMembers(levels[L], i);
    forall j | 0 <= j < |lv| ensures nodes[lv[j]].key != x {
      assert KeysOf(nodes, lv)[j] == nodes[lv[j]].key;
    }
  }

  /** The level over the one the node leaves, whose node of the key may now point down to it. */
  lemma UnlinkAbove<V>(nodes: Arena<V>, lvl: seq<nat>, levels: seq<Level>, L: nat, i: nat, nodes': Arena<V>, x: Key, hole: Hole)
    requires WellIndexed(nodes, lvl, levels) && L + 1 < |levels| && 0 < i < |levels[L]| - 1
    requires x == nodes[levels[L][i]].key && hole == (if L == 0 then NoHole else Hole(x, L - 1))
    requires LevelOk(nodes, lvl, levels, hole, L + 1) && Unlinked(nodes, levels, L, i, nodes')
    requires lvl[levels[L][i - 1]] == L && lvl[levels[L][i]] == L && lvl[levels[L][i + 1]] == L
    requires SameLabels(nodes, nodes') && WellIndexed(nodes', lvl, Removed(levels, L, i))
    requires KeysOf(nodes', Removed(levels, L, i)[L + 1]) == KeysOf(nodes, levels[L + 1])
    requires L + 2 < |levels| ==> KeysOf(nodes', Removed(levels, L, i)[L + 2]) == KeysOf(nodes, levels[L + 2])
    ensures LevelOk(nodes', lvl, Removed(levels, L, i), Hole(x, L), L + 1)
  {
    var lv := levels[L + 1];
    RemoveAtMembers(levels[L], i);
    forall j | 0 <= j < |lv| ensures nodes'[lv[j]] == nodes[lv[j]] {
      assert lvl[lv[j]] == L + 1;
    }
    LinkedFrame(nodes, nodes', lv);
  }

  /** Levels at least two away from the one the node leaves. */
  lemma UnlinkFar<V>(nodes: Arena<V>, lvl: seq<nat>, levels: seq<Level>, L: nat, i: nat, nodes': Arena<V>, x: Key, hole: Hole, L': nat)
    requires WellIndexed(nodes, lvl, levels) && L < |levels| && 0 < i < |levels[L]| - 1
    requires x == nodes[levels[L][i]].key && hole == (if L == 0 then NoHole else Hole(x, L - 1))
    requires L' < |levels| && (L' + 1 < L || L' > L + 1)
    requires LevelOk(nodes, lvl, levels, hole, L') && Unlinked(nodes, levels, L, i, nodes')
    requires lvl[levels[L][i - 1]] == L && lvl[levels[L][i]] == L && lvl[levels[L][i + 1]] == L
    requires SameLabels(nodes, nodes') && WellIndexed(nodes', lvl, Removed(levels, L, i))
    ensures LevelOk(nodes', lvl, Removed(levels, L, i), Hole(x, L), L')
  {
    forall j | 0 <= j < |levels[L']| ensures nodes'[levels[L'][j]] == nodes[levels[L'][j]] {
      assert lvl[levels[L'][j]] == L';
    }
    LevelOkFrame(nodes, lvl, levels, hole, nodes', lvl, Removed(levels, L, i), Hole(x, L), L');
  }

  /** Every level after the unlink, with the hole moved up to level L. */
  lemma UnlinkLevel<V>(nodes: Arena<V>, lvl: seq<nat>, levels: seq<Level>, L: nat, i: nat, nodes': Arena<V>, x: Key, hole: Hole, L': nat)
    requires WellIndexed(nodes, lvl, levels) && L < |levels| && 0 < i < |levels[L]| - 1 && L' < |levels|
    requires x == nodes[levels[L][i]].key && hole == (if L == 0 then NoHole else Hole(x, L - 1))
    requires Inv(nodes, lvl, levels, hole) && Unlinked(nodes, levels, L, i, nodes')
    requires lvl[levels[L][i - 1]] == L && lvl[levels[L][i]] == L && lvl[levels[L][i + 1]] == L
    requires forall j :: 0 <= j < |levels[L]| && j != i ==> nodes[levels[L][j]].key != x
    requires forall j :: 0 <= j < |levels[L]| && j != i - 1 && j != i && j != i + 1 ==>
      levels[L][j] != levels[L][i - 1] && levels[L][j] != levels[L][i] && levels[L][j] != levels[L][i + 1]
    requires SameLabels(nodes, nodes') && WellIndexed(nodes', lvl, Removed(levels, L, i))
    requires forall L'' :: 0 <= L'' < |levels| && L'' != L ==>
      KeysOf(nodes', Removed(levels, L, i)[L'']) == KeysOf(nodes, levels[L''])
    requires KeysOf(nodes', Removed(levels, L, i)[L]) == RemoveAt(KeysOf(nodes, levels[L]), i)
    requires x !in KeysOf(nodes', Removed(levels, L, i)[L])
    ensures LevelOk(nodes', lvl, Removed(levels, L, i), Hole(x, L), L')
  {
    LevelOkAt(nodes, lvl, levels, hole, L');
    if L' + 1 < L || L' > L + 1 {
      UnlinkFar(nodes, lvl, levels, L, i, nodes', x, hole, L');
    } else {
      UnlinkNear(nodes, lvl, levels, L, i, nodes', x, hole, L');
    }
  }

  lemma UnlinkNear<V>(nodes: Arena<V>, lvl: seq<nat>, levels: seq<Level>, L: nat, i: nat, nodes': Arena<V>, x: Key, hole: Hole, L': nat)
    requires WellIndexed(nodes, lvl, levels) && L < |levels| && 0 < i < |levels[L]| - 1 && L' < |levels|
    requires L <= L' + 1 && L' <= L + 1
    requires x == nodes[levels[L][i]].key && hole == (if L == 0 then NoHole else Hole(x, L - 1))
    requires LevelOk(nodes, lvl, levels, hole, L') && Unlinked(nodes, levels, L, i, nodes')
    requires lvl[levels[L][i - 1]] == L && lvl[levels[L][i]] == L && lvl[levels[L][i + 1]] == L
    requires forall j :: 0 <= j < |levels[L]| && j != i ==> nodes[levels[L][j]].key != x
    requires forall j :: 0 <= j < |levels[L]| && j != i - 1 && j != i && j != i + 1 ==>
      levels[L][j] != levels[L][i - 1] && levels[L][j] != levels[L][i] && levels[L][j] != levels[L][i + 1]
    requires SameLabels(nodes, nodes') && WellIndexed(nodes', lvl, Removed(levels, L, i))
    requires L' > 0 && L' - 1 != L ==> KeysOf(nodes', Removed(levels, L, i)[L' - 1]) == KeysOf(nodes, levels[L' - 1])
    requires L' != L ==> KeysOf(nodes', Removed(levels, L, i)[L']) == KeysOf(nodes, levels[L'])
    requires L' + 1 < |levels| && L' + 1 != L ==>
      KeysOf(nodes', Removed(levels, L, i)[L' + 1]) == KeysOf(nodes, levels[L' + 1])
    requires KeysOf(nodes', Removed(levels, L, i)[L]) == RemoveAt(KeysOf(nodes, levels[L]), i)
    requires x !in KeysOf(nodes', Removed(levels, L, i)[L])
    ensures LevelOk(nodes', lvl, Removed(levels, L, i), Hole(x, L), L')
  {
    if L' == L {
      UnlinkSame(nodes, lvl, levels, L, i, nodes', x, hole);
    } else if L' + 1 == L {
      UnlinkBelow(nodes, lvl, levels, L, i, nodes', x);
    } else {
      UnlinkAbove(nodes, lvl, levels, L, i, nodes', x, hole);
    }
  }

  /**
   * Unlinking the node of level L that holds the key x, with x already gone
   * from the levels below, keeps the invariant with x gone from level L too,
   * and takes x out of level L's keys and nothing else out of any level.
   */
  lemma UnlinkOk<V>(nodes: Arena<V>, lvl: seq<nat>, levels: seq<Level>, L: nat, i: nat, nodes': Arena<V>)
    requires UnlinkPre(nodes, lvl, levels, L, i, nodes')
    ensures nodes[levels[L][i]].key.Str?
    ensures Inv(nodes', lvl, Removed(levels, L, i), Hole(nodes[levels[L][i]].key, L))
    ensures forall L', k :: 0 <= L' < |levels| ==>
      (k in KeysOf(nodes', Removed(levels, L, i)[L']) <==>
       k in KeysOf(nodes, levels[L']) && (L' != L || k != nodes[levels[L][i]].key))
  {
    var x := nodes[levels[L][i]].key;
    var hole := if L == 0 then NoHole else Hole(x, L - 1);
    var levels' := Removed(levels, L, i);
    UnlinkFacts(nodes, lvl, levels, L, i, nodes');
    UnlinkKeys(nodes, lvl, levels, L, i, nodes');
    forall L' | 0 <= L' < |levels'| ensures LevelOk(nodes', lvl, levels', Hole(x, L), L') {
      UnlinkLevel(nodes, lvl, levels, L, i, nodes', x, hole, L');
    }
    RemoveAtMembers(KeysOf(nodes, levels[L]), i);
  }

  // The tower of the removed key: its vertical links, and the end of the climb.

  /**
   * Away from the hole, the node above a node points back down to it: the
   * tower of a key is linked both ways.
   */
  lemma DownOfUp<V>(nodes: Arena<V>, lvl: seq<nat>, levels: seq<Level>, hole: Hole, L: nat, j: nat)
    requires Inv(nodes, lvl, levels, hole) && L < |levels| && j < |levels[L]|
    requires nodes[levels[L][j]].up.Some?
    requires hole != Hole(nodes[levels[L][j]].key, L)
    ensures L + 1 < |levels| && nodes[levels[L][j]].up.value in levels[L + 1]
    ensures nodes[nodes[levels[L][j]].up.value].down == Some(levels[L][j])
  {
    var n := levels[L][j];
    UpAt(nodes, lvl, levels, hole, L, j);
    var w := nodes[n].up.value;
    var jw :| 0 <= jw < |levels[L + 1]| && levels[L + 1][jw] == w;
    LevelOkAt(nodes, lvl, levels, hole, L + 1);
    assert nodes[w].down.Some? && nodes[w].down.value in levels[L] && nodes[nodes[w].down.value].key == nodes[n].key;
    LevelDistinct(nodes, lvl, levels, hole, L);
    var jd :| 0 <= jd < |levels[L]| && levels[L][jd] == nodes[w].down.value;
  }

  /**
   * When the key of the hole is not on the level above it (or there is no
   * such level), the climb is over and the full invariant holds again.
   */
  lemma HoleClose<V>(nodes: Arena<V>, lvl: seq<nat>, levels: seq<Level>, x: Key, m: nat)
    requires Inv(nodes, lvl, levels, Hole(x, m)) && m < |levels|
    requires m + 1 < |levels| ==> x !in KeysOf(nodes, levels[m + 1])
    ensures Inv(nodes, lvl, levels, NoHole)
  {
    forall L | 0 <= L < |levels| ensures LevelOk(nodes, lvl, levels, NoHole, L) {
      LevelOkAt(nodes, lvl, levels, Hole(x, m), L);
      HoleCloseLevel(nodes, lvl, levels, x, m, L);
    }
  }

  lemma HoleCloseLevel<V>(nodes: Arena<V>, lvl: seq<nat>, levels: seq<Level>, x: Key, m: nat, L: nat)
    requires WellIndexed(nodes, lvl, levels) && m < |levels| && L < |levels|
    requires LevelOk(nodes, lvl, levels, Hole(x, m), L)
    requires L == m + 1 ==> x !in KeysOf(nodes, levels[L])
    requires L == m && m + 1 < |levels| ==> x !in KeysOf(nodes, levels[m + 1])
    ensures LevelOk(nodes, lvl, levels, NoHole, L)
  {
    if L == m + 1 {
      forall j | 0 <= j < |levels[L]| ensures nodes[levels[L][j]].key != x {
        assert KeysOf(nodes, levels[L])[j] == nodes[levels[L][j]].key;
      }
    }
  }

  /** No level holds a node whose key is missing from the level it was made for. */
  lemma NotOnLevels<V>(nodes: Arena<V>, lvl: seq<nat>, levels: seq<Level>, hole: Hole, n: nat)
    requires Inv(nodes, lvl, levels, hole) && n < |nodes|
    requires lvl[n] < |levels| ==> nodes[n].key !in KeysOf(nodes, levels[lvl[n]])
    ensures OffLevels(levels, n)
  {
    forall L, j | 0 <= L < |levels| && 0 <= j < |levels[L]| ensures levels[L][j] != n {
      LevelOkAt(nodes, lvl, levels, hole, L);
      assert lvl[levels[L][j]] == L;
      assert KeysOf(nodes, levels[L])[j] == nodes[levels[L][j]].key;
    }
  }

  /**
   * Rewriting the links of a node no level holds, keeping its key and value,
   * keeps the invariant and every level's keys.
   */
  lemma OffLevelsFrame<V>(nodes: Arena<V>, lvl: seq<nat>, levels: seq<Level>, hole: Hole, n: nat, nodes': Arena<V>)
    requires Inv(nodes, lvl, levels, hole) && n < |nodes| && OffLevels(levels, n)
    requires |nodes'| == |nodes| && nodes'[n].key == nodes[n].key && nodes'[n].value == nodes[n].value
    requires forall m :: 0 <= m < |nodes| && m != n ==> nodes'[m] == nodes[m]
    ensures Inv(nodes', lvl, levels, hole)
    ensures forall L :: 0 <= L < |levels| ==> KeysOf(nodes', levels[L]) == KeysOf(nodes, levels[L])
  {
    forall L | 0 <= L < |levels| ensures LevelOk(nodes', lvl, levels, hole, L) {
      LevelOkAt(nodes, lvl, levels, hole, L);
      LevelOkFrame(nodes, lvl, levels, hole, nodes', lvl, levels, hole, L);
    }
    forall L | 0 <= L < |levels| ensures KeysOf(nodes', levels[L]) == KeysOf(nodes, levels[L]) {
      KeysOfSameKeys(nodes, nodes', levels[L]);
    }
  }
}
