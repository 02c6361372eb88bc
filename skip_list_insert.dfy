/**
 * Splicing one node into a level: the level-0 insertion of `put` and each
 * step of its tower growth. The lemmas show that the splice keeps the skip
 * list invariant when the new key lies strictly between its neighbours.
 */
module SkipListInsert {
  import opened Wrappers
  import opened Entries
  import opened SkipListShape
  import opened SkipListLevels

  /**
   * The links one splice writes: the new node q = |nodes| goes between
   * p = levels[L][i - 1] and r = levels[L][i]; above level 0 it also points
   * down to the tower's previous top d, whose `up` now points to q.
   */
  ghost predicate Spliced<V>(nodes: Arena<V>, levels: seq<Level>, L: nat, i: nat, nodes': Arena<V>)
    requires L < |levels| && 0 < i < |levels[L]|
  {
    var q := |nodes|;
    var p := levels[L][i - 1];
    var r := levels[L][i];
    |nodes'| == q + 1 && p < q && r < q &&
    nodes'[q].left == Some(p) && nodes'[q].right == Some(r) && nodes'[q].up == None &&
    (L == 0 ==> nodes'[q].down == None) &&
    (L > 0 ==> nodes'[q].down.Some? && nodes'[q].down.value < q &&
               nodes'[nodes'[q].down.value] == nodes[nodes'[q].down.value].(up := Some(q))) &&
    nodes'[p] == nodes[p].(right := Some(q)) &&
    nodes'[r] == nodes[r].(left := Some(q)) &&
    forall n :: 0 <= n < q && n != p && n != r && nodes'[q].down != Some(n) ==> nodes'[n] == nodes[n]
  }

  /** What a splice needs: the invariant, and a new key strictly between its neighbours. */
  ghost predicate InsertPre<V>(nodes: Arena<V>, lvl: seq<nat>, levels: seq<Level>, L: nat, i: nat, nodes': Arena<V>) {
    Inv(nodes, lvl, levels, NoHole) && L < |levels| && 0 < i < |levels[L]| &&
    Spliced(nodes, levels, L, i, nodes') &&
    KeyLt(nodes[levels[L][i - 1]].key, nodes'[|nodes|].key) &&
    KeyLt(nodes'[|nodes|].key, nodes[levels[L][i]].key) &&
    (nodes'[|nodes|].value.Some? <==> L == 0) &&
    (L > 0 ==> nodes'[|nodes|].down.value in levels[L - 1] &&
               nodes[nodes'[|nodes|].down.value].key == nodes'[|nodes|].key)
  }

  /** The levels after the splice. */
  ghost function Inserted(levels: seq<Level>, L: nat, i: nat, q: nat): seq<Level>
    requires L < |levels| && i <= |levels[L]|
  {
    levels[L := InsertAt(levels[L], i, q)]
  }

  /** The keys of every level after the splice. */
  lemma InsertKeys<V>(nodes: Arena<V>, lvl: seq<nat>, levels: seq<Level>, L: nat, i: nat, nodes': Arena<V>)
    requires InsertPre(nodes, lvl, levels, L, i, nodes')
    ensures SameLabels(nodes, nodes')
    ensures WellIndexed(nodes', lvl + [L], Inserted(levels, L, i, |nodes|))
    ensures forall L' :: 0 <= L' < |levels| && L' != L ==>
      KeysOf(nodes', Inserted(levels, L, i, |nodes|)[L']) == KeysOf(nodes, levels[L'])
    ensures KeysOf(nodes', Inserted(levels, L, i, |nodes|)[L]) ==
      InsertAt(KeysOf(nodes, levels[L]), i, nodes'[|nodes|].key)
  {
    var q := |nodes|;
    var levels' := Inserted(levels, L, i, q);
    assert SameLabels(nodes, nodes');
    forall L' | 0 <= L' < |levels| && L' != L
      ensures InArena(nodes', levels'[L']) && KeysOf(nodes', levels'[L']) == KeysOf(nodes, levels[L'])
    {
      KeysOfSameKeys(nodes, nodes', levels[L']);
    }
    assert InArena(nodes', levels'[L]);
    assert KeysOf(nodes', levels'[L]) == InsertAt(KeysOf(nodes, levels[L]), i, nodes'[q].key);
  }

  /** The new key was on no level at or above L, and remains off every level above L. */
  lemma InsertKeyFresh<V>(nodes: Arena<V>, lvl: seq<nat>, levels: seq<Level>, L: nat, i: nat, nodes': Arena<V>)
    requires InsertPre(nodes, lvl, levels, L, i, nodes')
    ensures nodes'[|nodes|].key !in KeysOf(nodes, levels[L])
    ensures L + 1 < |levels| ==> nodes'[|nodes|].key !in KeysOf(nodes, levels[L + 1])
  {
    var ks := KeysOf(nodes, levels[L]);
    var x := nodes'[|nodes|].key;
    LevelOkAt(nodes, lvl, levels, NoHole, L);
    NeighboursDecide(ks, i - 1, x);
    KeyLtIrreflexive(x);
  }

  /** Linking q between lv[i - 1] and lv[i] links the level with q inserted at i. */
  lemma LinkedSplice<V>(nodes: Arena<V>, nodes': Arena<V>, lv: Level, i: nat, q: nat)
    requires InArena(nodes, lv) && Linked(nodes, lv) && 0 < i < |lv| && q < |nodes'|
    requires InArena(nodes', lv)
    requires forall j :: 0 <= j < |lv| && j != i - 1 && j != i ==>
      nodes'[lv[j]].left == nodes[lv[j]].left && nodes'[lv[j]].right == nodes[lv[j]].right
    requires nodes'[lv[i - 1]].left == nodes[lv[i - 1]].left && nodes'[lv[i - 1]].right == Some(q)
    requires nodes'[lv[i]].right == nodes[lv[i]].right && nodes'[lv[i]].left == Some(q)
    requires nodes'[q].left == Some(lv[i - 1]) && nodes'[q].right == Some(lv[i])
    ensures InArena(nodes', InsertAt(lv, i, q)) && Linked(nodes', InsertAt(lv, i, q))
  {
    var lv' := InsertAt(lv, i, q);
    forall j | 0 <= j < |lv'|
      ensures LinkedAt(nodes', lv', j)
    {
      if j < i {
        assert lv'[j] == lv[j] && LinkedAt(nodes, lv, j);
      } else if j > i {
        assert lv'[j] == lv[j - 1] && LinkedAt(nodes, lv, j - 1);
      }
    }
  }

  lemma InsertShapeSame<V>(nodes: Arena<V>, lvl: seq<nat>, levels: seq<Level>, L: nat, i: nat, nodes': Arena<V>)
    requires WellIndexed(nodes, lvl, levels) && L < |levels| && 0 < i < |levels[L]|
    requires LevelShape(nodes, lvl, levels, L) && Spliced(nodes, levels, L, i, nodes')
    requires KeyLt(nodes[levels[L][i - 1]].key, nodes'[|nodes|].key)
    requires KeyLt(nodes'[|nodes|].key, nodes[levels[L][i]].key)
    requires nodes'[|nodes|].value.Some? <==> L == 0
    requires L > 0 ==> lvl[nodes'[|nodes|].down.value] != L
    requires SameLabels(nodes, nodes')
    requires WellIndexed(nodes', lvl + [L], Inserted(levels, L, i, |nodes|))
    requires KeysOf(nodes', Inserted(levels, L, i, |nodes|)[L]) ==
      InsertAt(KeysOf(nodes, levels[L]), i, nodes'[|nodes|].key)
    ensures LevelShape(nodes', lvl + [L], Inserted(levels, L, i, |nodes|), L)
  {
    var q := |nodes|;
    var lv := levels[L];
    InsertBounded(KeysOf(nodes, lv), i, nodes'[q].key);
    InsertSameLinks(nodes, lvl, levels, L, i, nodes');
  }

  lemma InsertSameLinks<V>(nodes: Arena<V>, lvl: seq<nat>, levels: seq<Level>, L: nat, i: nat, nodes': Arena<V>)
    requires WellIndexed(nodes, lvl, levels) && L < |levels| && 0 < i < |levels[L]|
    requires LevelShape(nodes, lvl, levels, L) && Spliced(nodes, levels, L, i, nodes')
    requires L > 0 ==> lvl[nodes'[|nodes|].down.value] != L
    requires WellIndexed(nodes', lvl + [L], Inserted(levels, L, i, |nodes|))
    ensures Linked(nodes', Inserted(levels, L, i, |nodes|)[L])
  {
    var q := |nodes|;
    var lv := levels[L];
    AscendingDistinct(KeysOf(nodes, lv));
    forall j | 0 <= j < |lv| && j != i - 1 && j != i
      ensures nodes'[lv[j]].left == nodes[lv[j]].left && nodes'[lv[j]].right == nodes[lv[j]].right
    {
      assert lvl[lv[j]] == L;
      assert KeysOf(nodes, lv)[j] != KeysOf(nodes, lv)[i - 1];
      assert KeysOf(nodes, lv)[j] != KeysOf(nodes, lv)[i];
    }
    LinkedSplice(nodes, nodes', lv, i, q);
  }

  lemma InsertShapeOther<V>(nodes: Arena<V>, lvl: seq<nat>, levels: seq<Level>, L: nat, i: nat, nodes': Arena<V>, L': nat)
    requires InsertPre(nodes, lvl, levels, L, i, nodes') && L' < |levels| && L' != L
    requires WellIndexed(nodes', lvl + [L], Inserted(levels, L, i, |nodes|))
    ensures LevelShape(nodes', lvl + [L], Inserted(levels, L, i, |nodes|), L')
  {
    var q := |nodes|;
    var levels' := Inserted(levels, L, i, q);
    InsertKeys(nodes, lvl, levels, L, i, nodes');
    LevelOkAt(nodes, lvl, levels, NoHole, L');
    LevelDistinct(nodes, lvl, levels, NoHole, L);
    var lv := levels[L'];
    assert levels'[L'] == lv;
    forall j | 0 <= j < |lv|
      ensures nodes'[lv[j]].left == nodes[lv[j]].left && nodes'[lv[j]].right == nodes[lv[j]].right
      ensures nodes'[lv[j]].value == nodes[lv[j]].value
    {
      assert lvl[lv[j]] == L';
      assert lv[j] != levels[L][i - 1] && lv[j] != levels[L][i];
    }
    LinkedFrame(nodes, nodes', lv);
  }

  /** The fields a splice leaves alone. */
  lemma SplicedFields<V>(nodes: Arena<V>, levels: seq<Level>, L: nat, i: nat, nodes': Arena<V>)
    requires L < |levels| && 0 < i < |levels[L]| && Spliced(nodes, levels, L, i, nodes')
    ensures forall n :: 0 <= n < |nodes| ==>
      nodes'[n].key == nodes[n].key && nodes'[n].value == nodes[n].value && nodes'[n].down == nodes[n].down
    ensures forall n :: 0 <= n < |nodes| ==>
      nodes'[n].up == (if nodes'[|nodes|].down == Some(n) then Some(|nodes|) else nodes[n].up)
  {
  }

  lemma InsertDown<V>(nodes: Arena<V>, lvl: seq<nat>, levels: seq<Level>, L: nat, i: nat, nodes': Arena<V>, L': nat)
    requires WellIndexed(nodes, lvl, levels) && L < |levels| && 0 < i < |levels[L]| && L' < |levels|
    requires WellIndexed(nodes', lvl + [L], Inserted(levels, L, i, |nodes|))
    requires DownOk(nodes, lvl, levels, NoHole, L')
    requires forall n :: 0 <= n < |nodes| ==>
      nodes'[n].key == nodes[n].key && nodes'[n].down == nodes[n].down
    requires |nodes'| == |nodes| + 1
    requires L == 0 ==> nodes'[|nodes|].down == None
    requires L > 0 ==>
      nodes'[|nodes|].down.Some? && nodes'[|nodes|].down.value in levels[L - 1] &&
      nodes[nodes'[|nodes|].down.value].key == nodes'[|nodes|].key
    ensures DownOk(nodes', lvl + [L], Inserted(levels, L, i, |nodes|), NoHole, L')
  {
    var q := |nodes|;
    var levels' := Inserted(levels, L, i, q);
    InsertAtMembers(levels[L], i, q);
    forall j | 0 <= j < |levels'[L']|
      ensures L' == 0 ==> nodes'[levels'[L'][j]].down == None
      ensures L' > 0 ==>
        nodes'[levels'[L'][j]].down.Some? &&
        nodes'[levels'[L'][j]].down.value in levels'[L' - 1] &&
        nodes'[nodes'[levels'[L'][j]].down.value].key == nodes'[levels'[L'][j]].key
    {
      var n := levels'[L'][j];
      if n != q {
        var j0 :| 0 <= j0 < |levels[L']| && levels[L'][j0] == n;
      }
    }
  }

  lemma InsertUp<V>(nodes: Arena<V>, lvl: seq<nat>, levels: seq<Level>, L: nat, i: nat, nodes': Arena<V>, L': nat)
    requires WellIndexed(nodes, lvl, levels) && L < |levels| && 0 < i < |levels[L]| && L' < |levels|
    requires WellIndexed(nodes', lvl + [L], Inserted(levels, L, i, |nodes|))
    requires UpOk(nodes, lvl, levels, L')
    requires forall j :: 0 <= j < |levels[L']| ==> lvl[levels[L'][j]] == L'
    requires |nodes'| == |nodes| + 1 && nodes'[|nodes|].up == None
    requires forall n :: 0 <= n < |nodes| ==> nodes'[n].key == nodes[n].key
    requires forall n :: 0 <= n < |nodes| ==>
      nodes'[n].up == (if nodes'[|nodes|].down == Some(n) then Some(|nodes|) else nodes[n].up)
    requires L + 1 < |levels| ==> nodes'[|nodes|].key !in KeysOf(nodes, levels[L + 1])
    requires L == 0 ==> nodes'[|nodes|].down == None
    requires L > 0 ==>
      nodes'[|nodes|].down.Some? && nodes'[|nodes|].down.value in levels[L - 1] &&
      lvl[nodes'[|nodes|].down.value] == L - 1 &&
      nodes[nodes'[|nodes|].down.value].key == nodes'[|nodes|].key
    requires L > 0 ==> forall n ::
      n in levels[L - 1] && nodes[n].key == nodes'[|nodes|].key ==> n == nodes'[|nodes|].down.value
    requires forall L'' :: 0 <= L'' < |levels| && L'' != L ==>
      KeysOf(nodes', Inserted(levels, L, i, |nodes|)[L'']) == KeysOf(nodes, levels[L''])
    requires KeysOf(nodes', Inserted(levels, L, i, |nodes|)[L]) ==
      InsertAt(KeysOf(nodes, levels[L]), i, nodes'[|nodes|].key)
    ensures UpOk(nodes', lvl + [L], Inserted(levels, L, i, |nodes|), L')
  {
    if L' + 1 == L {
      InsertUpBelow(nodes, lvl, levels, L, i, nodes', L');
    } else {
      InsertUpOther(nodes, lvl, levels, L, i, nodes', L');
    }
  }

  /** The level under the splice, one of whose nodes now points up to the new node. */
  lemma InsertUpBelow<V>(nodes: Arena<V>, lvl: seq<nat>, levels: seq<Level>, L: nat, i: nat, nodes': Arena<V>, L': nat)
    requires WellIndexed(nodes, lvl, levels) && L < |levels| && 0 < i < |levels[L]| && L' < |levels|
    requires WellIndexed(nodes', lvl + [L], Inserted(levels, L, i, |nodes|))
    requires UpOk(nodes, lvl, levels, L')
    requires forall j :: 0 <= j < |levels[L']| ==> lvl[levels[L'][j]] == L'
    requires |nodes'| == |nodes| + 1 && nodes'[|nodes|].up == None
    requires forall n :: 0 <= n < |nodes| ==> nodes'[n].key == nodes[n].key
    requires forall n :: 0 <= n < |nodes| ==>
      nodes'[n].up == (if nodes'[|nodes|].down == Some(n) then Some(|nodes|) else nodes[n].up)
    requires L' + 1 == L
    requires nodes'[|nodes|].down.Some? && nodes'[|nodes|].down.value in levels[L - 1] &&
      nodes[nodes'[|nodes|].down.value].key == nodes'[|nodes|].key
    requires forall n ::
      n in levels[L - 1] && nodes[n].key == nodes'[|nodes|].key ==> n == nodes'[|nodes|].down.value
    requires KeysOf(nodes', Inserted(levels, L, i, |nodes|)[L']) == KeysOf(nodes, levels[L'])
    requires KeysOf(nodes', Inserted(levels, L, i, |nodes|)[L]) ==
      InsertAt(KeysOf(nodes, levels[L]), i, nodes'[|nodes|].key)
    ensures UpOk(nodes', lvl + [L], Inserted(levels, L, i, |nodes|), L')
  {
    var q := |nodes|;
    var x := nodes'[q].key;
    var levels' := Inserted(levels, L, i, q);
    InsertAtMembers(levels[L], i, q);
    InsertAtMembers(KeysOf(nodes, levels[L]), i, x);
    var lv := levels[L'];
    assert levels'[L'] == lv;
    forall j | 0 <= j < |lv|
      ensures
        if nodes'[lv[j]].key in KeysOf(nodes', levels'[L]) then
          nodes'[lv[j]].up.Some? &&
          nodes'[lv[j]].up.value in levels'[L] &&
          nodes'[nodes'[lv[j]].up.value].key == nodes'[lv[j]].key
        else nodes'[lv[j]].up == None
    {
      if nodes[lv[j]].key == x {
        assert lv[j] == nodes'[q].down.value;
      }
    }
  }

  /** Every other level: the new node is on no level below it, and level L + 1 lacks its key. */
  lemma InsertUpOther<V>(nodes: Arena<V>, lvl: seq<nat>, levels: seq<Level>, L: nat, i: nat, nodes': Arena<V>, L': nat)
    requires WellIndexed(nodes, lvl, levels) && L < |levels| && 0 < i < |levels[L]| && L' < |levels|
    requires WellIndexed(nodes', lvl + [L], Inserted(levels, L, i, |nodes|))
    requires UpOk(nodes, lvl, levels, L')
    requires forall j :: 0 <= j < |levels[L']| ==> lvl[levels[L'][j]] == L'
    requires |nodes'| == |nodes| + 1 && nodes'[|nodes|].up == None
    requires forall n :: 0 <= n < |nodes| ==> nodes'[n].key == nodes[n].key
    requires forall n :: 0 <= n < |nodes| ==>
      nodes'[n].up == (if nodes'[|nodes|].down == Some(n) then Some(|nodes|) else nodes[n].up)
    requires L' + 1 != L
    requires L + 1 < |levels| ==> nodes'[|nodes|].key !in KeysOf(nodes, levels[L + 1])
    requires L == 0 ==> nodes'[|nodes|].down == None
    requires L > 0 ==>
      nodes'[|nodes|].down.Some? && nodes'[|nodes|].down.value < |nodes| &&
      lvl[nodes'[|nodes|].down.value] == L - 1
    requires L' + 1 < |levels| ==>
      KeysOf(nodes', Inserted(levels, L, i, |nodes|)[L' + 1]) == KeysOf(nodes, levels[L' + 1])
    ensures UpOk(nodes', lvl + [L], Inserted(levels, L, i, |nodes|), L')
  {
    var q := |nodes|;
    var levels' := Inserted(levels, L, i, q);
    InsertAtMembers(levels[L], i, q);
    forall j | 0 <= j < |levels'[L']|
      ensures
        if L' + 1 < |levels'| && nodes'[levels'[L'][j]].key in KeysOf(nodes', levels'[L' + 1]) then
          nodes'[levels'[L'][j]].up.Some? &&
          nodes'[levels'[L'][j]].up.value in levels'[L' + 1] &&
          nodes'[nodes'[levels'[L'][j]].up.value].key == nodes'[levels'[L'][j]].key
        else nodes'[levels'[L'][j]].up == None
    {
      var n := levels'[L'][j];
      if n != q {
        var j0 :| 0 <= j0 < |levels[L']| && levels[L'][j0] == n;
        assert lvl[n] == L';
        assert nodes'[n].up == nodes[n].up;
      } else {
        assert L' == L;
      }
    }
  }

  lemma InsertSubset<V>(nodes: Arena<V>, lvl: seq<nat>, levels: seq<Level>, L: nat, i: nat, nodes': Arena<V>, L': nat)
    requires WellIndexed(nodes, lvl, levels) && L < |levels| && 0 < i < |levels[L]| && L' + 1 < |levels|
    requires WellIndexed(nodes', lvl + [L], Inserted(levels, L, i, |nodes|))
    requires SubsetOk(nodes, lvl, levels, NoHole, L')
    requires |nodes'| == |nodes| + 1
    requires L > 0 ==> nodes'[|nodes|].key in KeysOf(nodes, levels[L - 1])
    requires forall L'' :: 0 <= L'' < |levels| && L'' != L ==>
      KeysOf(nodes', Inserted(levels, L, i, |nodes|)[L'']) == KeysOf(nodes, levels[L''])
    requires KeysOf(nodes', Inserted(levels, L, i, |nodes|)[L]) ==
      InsertAt(KeysOf(nodes, levels[L]), i, nodes'[|nodes|].key)
    ensures SubsetOk(nodes', lvl + [L], Inserted(levels, L, i, |nodes|), NoHole, L')
  {
    InsertAtMembers(KeysOf(nodes, levels[L]), i, nodes'[|nodes|].key);
  }

  lemma InsertLevelOk<V>(nodes: Arena<V>, lvl: seq<nat>, levels: seq<Level>, L: nat, i: nat, nodes': Arena<V>, L': nat)
    requires InsertPre(nodes, lvl, levels, L, i, nodes') && L' < |levels|
    requires WellIndexed(nodes', lvl + [L], Inserted(levels, L, i, |nodes|))
    requires SameLabels(nodes, nodes')
    requires forall L'' :: 0 <= L'' < |levels| && L'' != L ==>
      KeysOf(nodes', Inserted(levels, L, i, |nodes|)[L'']) == KeysOf(nodes, levels[L''])
    requires KeysOf(nodes', Inserted(levels, L, i, |nodes|)[L]) ==
      InsertAt(KeysOf(nodes, levels[L]), i, nodes'[|nodes|].key)
    requires L + 1 < |levels| ==> nodes'[|nodes|].key !in KeysOf(nodes, levels[L + 1])
    requires L > 0 ==> lvl[nodes'[|nodes|].down.value] == L - 1
    requires L > 0 ==> forall n ::
      n in levels[L - 1] && nodes[n].key == nodes'[|nodes|].key ==> n == nodes'[|nodes|].down.value
    ensures LevelOk(nodes', lvl + [L], Inserted(levels, L, i, |nodes|), NoHole, L')
  {
    LevelOkAt(nodes, lvl, levels, NoHole, L');
    SplicedFields(nodes, levels, L, i, nodes');
    if L' == L {
      LevelOkAt(nodes, lvl, levels, NoHole, L);
      InsertShapeSame(nodes, lvl, levels, L, i, nodes');
    } else {
      InsertShapeOther(nodes, lvl, levels, L, i, nodes', L');
    }
    InsertDown(nodes, lvl, levels, L, i, nodes', L');
    InsertUp(nodes, lvl, levels, L, i, nodes', L');
    if L' + 1 < |levels| {
      if L > 0 {
        assert nodes'[|nodes|].key in KeysOf(nodes, levels[L - 1]) by {
          var d := nodes'[|nodes|].down.value;
          var jd :| 0 <= jd < |levels[L - 1]| && levels[L - 1][jd] == d;
          assert KeysOf(nodes, levels[L - 1])[jd] == nodes[d].key;
        }
      }
      InsertSubset(nodes, lvl, levels, L, i, nodes', L');
    }
  }

  /**
   * Splicing a node whose key lies strictly between its neighbours keeps the
   * invariant, and adds exactly that key to level L.
   */
  lemma InsertOk<V>(nodes: Arena<V>, lvl: seq<nat>, levels: seq<Level>, L: nat, i: nat, nodes': Arena<V>)
    requires InsertPre(nodes, lvl, levels, L, i, nodes')
    ensures Inv(nodes', lvl + [L], Inserted(levels, L, i, |nodes|), NoHole)
    ensures forall L', k :: 0 <= L' < |levels| ==>
      (k in KeysOf(nodes', Inserted(levels, L, i, |nodes|)[L']) <==>
       k in KeysOf(nodes, levels[L']) || (L' == L && k == nodes'[|nodes|].key))
  {
    var q := |nodes|;
    var x := nodes'[q].key;
    var levels' := Inserted(levels, L, i, q);
    var lvl' := lvl + [L];
    InsertKeys(nodes, lvl, levels, L, i, nodes');
    InsertKeyFresh(nodes, lvl, levels, L, i, nodes');
    if L > 0 {
      var d := nodes'[q].down.value;
      LevelDistinct(nodes, lvl, levels, NoHole, L - 1);
      forall n | n in levels[L - 1] && nodes[n].key == x ensures n == d {
        var a :| 0 <= a < |levels[L - 1]| && levels[L - 1][a] == n;
        var b :| 0 <= b < |levels[L - 1]| && levels[L - 1][b] == d;
      }
    }
    forall L' | 0 <= L' < |levels'| ensures LevelOk(nodes', lvl', levels', NoHole, L') {
      InsertLevelOk(nodes, lvl, levels, L, i, nodes', L');
    }
    InsertAtMembers(KeysOf(nodes, levels[L]), i, x);
  }

  /**
   * Where the tower climbs to: walking left on level L from the new node at
   * iq to the first node j with an `up` link, that link leads to the node of
   * level L + 1 after which the new key belongs.
   */
  lemma TowerSlot<V>(nodes: Arena<V>, lvl: seq<nat>, levels: seq<Level>, L: nat, j: nat, iq: nat, ju: nat)
    requires Inv(nodes, lvl, levels, NoHole) && L + 1 < |levels| && j < iq < |levels[L]|
    requires forall c :: j < c < iq ==> nodes[levels[L][c]].up == None
    requires ju < |levels[L + 1]| && nodes[levels[L][j]].up == Some(levels[L + 1][ju])
    requires nodes[levels[L][iq]].key !in KeysOf(nodes, levels[L + 1])
    ensures ju + 1 < |levels[L + 1]|
    ensures KeyLt(nodes[levels[L + 1][ju]].key, nodes[levels[L][iq]].key)
    ensures KeyLt(nodes[levels[L][iq]].key, nodes[levels[L + 1][ju + 1]].key)
  {
    AdjacentKeys(nodes, lvl, levels, L);
    var ks, us := KeysOf(nodes, levels[L]), KeysOf(nodes, levels[L + 1]);
    UpAt(nodes, lvl, levels, NoHole, L, j);
    forall c | j < c < iq ensures ks[c] !in us {
      UpAt(nodes, lvl, levels, NoHole, L, c);
    }
    SlotKeys(ks, us, j, iq, ju);
  }

  /**
   * The key sequence form of the walk: if ks[j] is the last key before
   * ks[iq] that level us also holds, ks[iq] falls right after it in us.
   */
  lemma SlotKeys(ks: seq<Key>, us: seq<Key>, j: nat, iq: nat, ju: nat)
    requires Bounded(ks) && Bounded(us) && j < iq < |ks| && ju < |us|
    requires us[ju] == ks[j] && ks[iq] !in us
    requires forall k :: k in us ==> k in ks
    requires forall c :: j < c < iq ==> ks[c] !in us
    ensures ju + 1 < |us| && KeyLt(us[ju], ks[iq]) && KeyLt(ks[iq], us[ju + 1])
  {
    var x := ks[iq];
    AscendingBefore(ks, j, iq);
    if ju + 1 == |us| {
      KeyLtIrreflexive(PosInf);
    }
    var y := us[ju + 1];
    AscendingBefore(us, ju, ju + 1);
    assert y in us;
    var c :| 0 <= c < |ks| && ks[c] == y;
    KeyLtTotal(x, y);
    if KeyLt(y, x) {
      AscendingOrder(ks, j, c);
      AscendingOrder(ks, c, iq);
    }
  }

  /**
   * Overwriting the value of an ordinary node of level 0 keeps the invariant
   * and every level's keys.
   */
  lemma SetValueOk<V>(nodes: Arena<V>, lvl: seq<nat>, levels: seq<Level>, i: nat, v: V, nodes': Arena<V>)
    requires Inv(nodes, lvl, levels, NoHole) && 0 < i < |levels[0]| - 1
    requires nodes' == nodes[levels[0][i] := nodes[levels[0][i]].(value := Some(v))]
    ensures Inv(nodes', lvl, levels, NoHole)
    ensures forall L :: 0 <= L < |levels| ==> KeysOf(nodes', levels[L]) == KeysOf(nodes, levels[L])
  {
    var n := levels[0][i];
    LevelOkAt(nodes, lvl, levels, NoHole, 0);
    assert lvl[n] == 0;
    assert SameKeys(nodes, nodes');
    forall L | 0 <= L < |levels| ensures KeysOf(nodes', levels[L]) == KeysOf(nodes, levels[L]) {
      KeysOfSameKeys(nodes, nodes', levels[L]);
    }
    forall L | 0 <= L < |levels| ensures LevelOk(nodes', lvl, levels, NoHole, L) {
      LevelOkAt(nodes, lvl, levels, NoHole, L);
      if L == 0 {
        SetValueLevel(nodes, lvl, levels, i, v, nodes');
      } else {
        forall j | 0 <= j < |levels[L]| ensures nodes'[levels[L][j]] == nodes[levels[L][j]] {
          assert lvl[levels[L][j]] == L;
        }
        LevelOkFrame(nodes, lvl, levels, NoHole, nodes', lvl, levels, NoHole, L);
      }
    }
  }

  lemma SetValueLevel<V>(nodes: Arena<V>, lvl: seq<nat>, levels: seq<Level>, i: nat, v: V, nodes': Arena<V>)
    requires WellIndexed(nodes, lvl, levels) && 0 < i < |levels[0]| - 1
    requires LevelOk(nodes, lvl, levels, NoHole, 0)
    requires nodes' == nodes[levels[0][i] := nodes[levels[0][i]].(value := Some(v))]
    requires WellIndexed(nodes', lvl, levels) && SameKeys(nodes, nodes')
    requires KeysOf(nodes', levels[0]) == KeysOf(nodes, levels[0])
    requires 1 < |levels| ==> KeysOf(nodes', levels[1]) == KeysOf(nodes, levels[1])
    ensures LevelOk(nodes', lvl, levels, NoHole, 0)
  {
    LinkedFrame(nodes, nodes', levels[0]);
  }
}
