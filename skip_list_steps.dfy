/**
 * The arena rewrites the operations of the skip list perform, each given as
 * the function that applies the same field writes, and what each rewrite
 * keeps: the invariant, which level holds which key, and the map.
 */
module SkipListSteps {
  import opened Wrappers
  import opened JavaStrings
  import opened Entries
  import opened SkipListShape
  import opened SkipListContents
  import opened SkipListInsert
  import opened SkipListLevels
  import opened SkipListRemove

  /** Level L of the arena holds a node of the ordinary key s. */
  ghost predicate Holds<V>(nodes: Arena<V>, levels: seq<Level>, L: int, s: JString) {
    0 <= L < |levels| && InArena(nodes, levels[L]) && Str(s) in KeysOf(nodes, levels[L])
  }

  /** A key strictly between two neighbours of level 0 is on no level and unbound. */
  lemma NewKeyAbsent<V>(nodes: Arena<V>, lvl: seq<nat>, levels: seq<Level>, i: nat, k: JString)
    requires Inv(nodes, lvl, levels, NoHole) && i + 1 < |levels[0]|
    requires KeyLe(nodes[levels[0][i]].key, Str(k)) && nodes[levels[0][i]].key != Str(k)
    requires KeyLt(Str(k), nodes[levels[0][i + 1]].key)
    ensures KeyLt(nodes[levels[0][i]].key, Str(k))
    ensures forall L: int :: !Holds(nodes, levels, L, k)
    ensures k !in MapOf(nodes, levels[0])
  {
    LevelOkAt(nodes, lvl, levels, NoHole, 0);
    var ks := KeysOf(nodes, levels[0]);
    assert ks[i] == nodes[levels[0][i]].key && ks[i + 1] == nodes[levels[0][i + 1]].key;
    NeighboursDecide(ks, i, Str(k));
    MapOfLacks(nodes, levels[0], k);
    forall L: int | Holds(nodes, levels, L, k)
      ensures false
    {
      KeysBelow(nodes, lvl, levels, L, Str(k));
    }
  }

  /**
   * The arena after the four writes of a splice: the new node `node` is
   * appended, `r.left` and `p.right` point to it, and `below.up` too.
   */
  ghost function SplicedArena<V>(nodes: Arena<V>, p: nat, r: nat, node: Entry<V>, below: Option<nat>): Arena<V>
    requires p < |nodes| && r < |nodes| && (below.Some? ==> below.value < |nodes|)
  {
    var e := |nodes|;
    var a := nodes + [node];
    var b := a[r := a[r].(left := Some(e))];
    var c := b[p := b[p].(right := Some(e))];
    if below.Some? then c[below.value := c[below.value].(up := Some(e))] else c
  }

  /** The four writes of a splice between distinct neighbours are a splice. */
  lemma SplicedArenaSpliced<V>(nodes: Arena<V>, levels: seq<Level>, L: nat, i: nat,
                               node: Entry<V>, below: Option<nat>, nodes': Arena<V>)
    requires L < |levels| && 0 < i < |levels[L]|
    requires levels[L][i - 1] < |nodes| && levels[L][i] < |nodes| && levels[L][i - 1] != levels[L][i]
    requires node.left == Some(levels[L][i - 1]) && node.right == Some(levels[L][i])
    requires node.up == None && node.down == below && (below.Some? <==> L > 0)
    requires below.Some? ==> below.value < |nodes| && below.value != levels[L][i - 1] && below.value != levels[L][i]
    requires nodes' == SplicedArena(nodes, levels[L][i - 1], levels[L][i], node, below)
    ensures Spliced(nodes, levels, L, i, nodes')
  {
  }

  /**
   * Splicing a node of key k between the neighbours at i and i + 1 of level L
   * keeps the invariant, adds k to that level only, keeps the top sentinels,
   * and at level 0 binds k to the node's value.
   */
  lemma SpliceOk<V>(nodes: Arena<V>, lvl: seq<nat>, levels: seq<Level>, L: nat, i: nat,
                    k: JString, val: Option<V>, below: Option<nat>, node: Entry<V>, nodes': Arena<V>, levels': seq<Level>)
    requires Inv(nodes, lvl, levels, NoHole) && L < |levels| && i + 1 < |levels[L]|
    requires InArena(nodes, levels[L]) && (L > 0 ==> InArena(nodes, levels[L - 1]))
    requires KeyLt(nodes[levels[L][i]].key, Str(k)) && KeyLt(Str(k), nodes[levels[L][i + 1]].key)
    requires val.Some? <==> L == 0
    requires L == 0 ==> below == None
    requires L > 0 ==> below.Some? && below.value in levels[L - 1] && nodes[below.value].key == Str(k)
    requires node == Entry(Str(k), val, None, below, Some(levels[L][i]), Some(levels[L][i + 1]))
    requires nodes' == SplicedArena(nodes, levels[L][i], levels[L][i + 1], node, below)
    requires levels' == Inserted(levels, L, i + 1, |nodes|)
    ensures Inv(nodes', lvl + [L], levels', NoHole)
    ensures |levels'| == |levels|
    ensures forall L': int, s :: Holds(nodes', levels', L', s) <==> Holds(nodes, levels, L', s) || (L' == L && s == k)
    ensures MapOf(nodes', levels'[0]) ==
      if L == 0 then MapOf(nodes, levels[0])[k := val.value] else MapOf(nodes, levels[0])
  {
    var p, r, e := levels[L][i], levels[L][i + 1], |nodes|;
    StepRight(nodes, lvl, levels, L, i, k);
    KeyLtIrreflexive(Str(k));
    KeyLtTotal(nodes[p].key, Str(k));
    KeyLtTotal(Str(k), nodes[r].key);
    KeyLtTransitive(nodes[p].key, Str(k), nodes[r].key);
    KeyLtIrreflexive(nodes[p].key);
    SplicedArenaSpliced(nodes, levels, L, i + 1, node, below, nodes');
    InsertOk(nodes, lvl, levels, L, i + 1, nodes');
    InsertKeyFresh(nodes, lvl, levels, L, i + 1, nodes');
    forall L': int, s | 0 <= L' < |levels|
      ensures Holds(nodes', levels', L', s) <==> Holds(nodes, levels, L', s) || (L' == L && s == k)
    {
      assert InArena(nodes', levels'[L']) && InArena(nodes, levels[L']);
    }
    if L == 0 {
      MapOfInsert(nodes, nodes', levels[0], i + 1, e, k, val.value);
    } else {
      MapOfFrame(nodes, nodes', levels[0]);
    }
  }

  /**
   * The arena after the writes that stack a new top level: two fresh
   * sentinels linked to each other and down to h and t, which link up to them.
   */
  ghost function RaisedArena<V>(nodes: Arena<V>, h: nat, t: nat, e1: Entry<V>, e2: Entry<V>): Arena<V>
    requires h < |nodes| && t < |nodes|
  {
    var p1, p2 := |nodes|, |nodes| + 1;
    var a := nodes + [e1, e2];
    var b := a[h := a[h].(up := Some(p1))];
    b[t := b[t].(up := Some(p2))]
  }

  /** Stacking a new top level keeps the invariant, every old level's keys and the map. */
  lemma GrowOk<V>(nodes: Arena<V>, lvl: seq<nat>, levels: seq<Level>, e1: Entry<V>, e2: Entry<V>,
                  nodes': Arena<V>, lvl': seq<nat>, levels': seq<Level>)
    requires Inv(nodes, lvl, levels, NoHole) && |levels[|levels| - 1]| >= 2
    requires InArena(nodes, levels[|levels| - 1])
    requires e1 == Entry(NegInf, None, None, Some(levels[|levels| - 1][0]), None, Some(|nodes| + 1))
    requires e2 == Entry(PosInf, None, None, Some(levels[|levels| - 1][|levels[|levels| - 1]| - 1]), Some(|nodes|), None)
    requires nodes' == RaisedArena(nodes, levels[|levels| - 1][0], levels[|levels| - 1][|levels[|levels| - 1]| - 1], e1, e2)
    requires levels' == levels + [[|nodes|, |nodes| + 1]] && lvl' == lvl + [|levels|, |levels|]
    ensures Inv(nodes', lvl', levels', NoHole)
    ensures KeysOf(nodes', levels'[|levels|]) == [NegInf, PosInf]
    ensures forall L: int, s :: Holds(nodes', levels', L, s) <==> Holds(nodes, levels, L, s)
    ensures |nodes'| == |nodes| + 2
    ensures forall n :: 0 <= n < |nodes| ==> nodes'[n].key == nodes[n].key
    ensures forall n :: 0 <= n < |nodes| && n !in {levels[|levels| - 1][0], levels[|levels| - 1][|levels[|levels| - 1]| - 1]} ==>
      nodes'[n] == nodes[n]
    ensures MapOf(nodes', levels'[0]) == MapOf(nodes, levels[0])
  {
    var top := levels[|levels| - 1];
    LevelDistinct(nodes, lvl, levels, NoHole, |levels| - 1);
    assert top[0] != top[|top| - 1];
    assert Raised(nodes, levels, nodes');
    NewTopOk(nodes, lvl, levels, nodes');
    forall L: int, s | 0 <= L <= |levels|
      ensures Holds(nodes', levels', L, s) <==> Holds(nodes, levels, L, s)
    {
      assert InArena(nodes', levels'[L]);
      if L == |levels| {
        assert KeysOf(nodes', levels'[L]) == [NegInf, PosInf];
      }
    }
    LevelOkAt(nodes, lvl, levels, NoHole, 0);
    MapOfFrame(nodes, nodes', levels[0]);
  }

  // The writes of `remove`.

  /** The arena after `remove` takes t out from between l and r and nulls its horizontal links. */
  ghost function UnlinkedArena<V>(nodes: Arena<V>, l: nat, t: nat, r: nat): Arena<V>
    requires l < |nodes| && t < |nodes| && r < |nodes|
  {
    var a := nodes[l := nodes[l].(right := Some(r))];
    var b := a[r := a[r].(left := Some(l))];
    var c := b[t := b[t].(right := None)];
    c[t := c[t].(left := None)]
  }

  /** The writes of an unlink between distinct neighbours are an unlink. */
  lemma UnlinkedArenaUnlinked<V>(nodes: Arena<V>, levels: seq<Level>, L: nat, i: nat, nodes': Arena<V>)
    requires L < |levels| && 0 < i < |levels[L]| - 1 && InArena(nodes, levels[L])
    requires levels[L][i - 1] != levels[L][i] && levels[L][i] != levels[L][i + 1] && levels[L][i - 1] != levels[L][i + 1]
    requires nodes' == UnlinkedArena(nodes, levels[L][i - 1], levels[L][i], levels[L][i + 1])
    ensures Unlinked(nodes, levels, L, i, nodes')
  {
  }

  /**
   * Unlinking the node of key x at i on level L, with x already gone from
   * the levels below, keeps the invariant with x gone from level L too: x
   * leaves level L and nothing else leaves any level; at level 0 x leaves
   * the map. Only nodes of level L change, the unlinked one losing its
   * horizontal links.
   */
  lemma UnlinkStep<V>(nodes: Arena<V>, lvl: seq<nat>, levels: seq<Level>, L: nat, i: nat, x: Key,
                      nodes': Arena<V>, levels': seq<Level>)
    requires L < |levels| && 0 < i < |levels[L]| - 1
    requires Inv(nodes, lvl, levels, if L == 0 then NoHole else Hole(x, L - 1))
    requires InArena(nodes, levels[L]) && x == nodes[levels[L][i]].key
    requires nodes' == UnlinkedArena(nodes, levels[L][i - 1], levels[L][i], levels[L][i + 1])
    requires levels' == Removed(levels, L, i)
    ensures x.Str?
    ensures Inv(nodes', lvl, levels', Hole(x, L))
    ensures forall L': int, s :: Holds(nodes', levels', L', s) <==> Holds(nodes, levels, L', s) && (L' != L || Str(s) != x)
    ensures MapOf(nodes', levels'[0]) == if L == 0 then MapOf(nodes, levels[0]) - {x.s} else MapOf(nodes, levels[0])
    ensures |nodes'| == |nodes| && nodes'[levels[L][i]] == nodes[levels[L][i]].(left := None, right := None)
    ensures forall n :: 0 <= n < |nodes| && lvl[n] != L ==> nodes'[n] == nodes[n]
  {
    var hole := if L == 0 then NoHole else Hole(x, L - 1);
    LevelDistinct(nodes, lvl, levels, hole, L);
    UnlinkedArenaUnlinked(nodes, levels, L, i, nodes');
    UnlinkFacts(nodes, lvl, levels, L, i, nodes');
    UnlinkOk(nodes, lvl, levels, L, i, nodes');
    UnlinkHolds(nodes, lvl, levels, L, x, nodes', levels');
    LevelOkAt(nodes, lvl, levels, hole, 0);
    UnlinkMap(nodes, levels, L, i, x, nodes', levels');
  }

  /** Removing an inner node from level L keeps that level's sentinels and every other level. */
  lemma RemovedLevels(levels: seq<Level>, L: nat, i: nat)
    requires L < |levels| && 0 < i < |levels[L]| - 1
    ensures var levels' := Removed(levels, L, i);
      |levels'| == |levels| && |levels'[L]| == |levels[L]| - 1 &&
      levels'[L][0] == levels[L][0] && levels'[L][|levels'[L]| - 1] == levels[L][|levels[L]| - 1] &&
      forall L' :: 0 <= L' < |levels| && L' != L ==> levels'[L'] == levels[L']
  {
    var lv := levels[L];
    assert Removed(levels, L, i)[L][|lv| - 2] == RemoveAt(lv, i)[|lv| - 2] == lv[|lv| - 1];
  }

  /** Which level holds which key after an unlink, from the keys of each level. */
  lemma UnlinkHolds<V>(nodes: Arena<V>, lvl: seq<nat>, levels: seq<Level>, L: nat, x: Key,
                       nodes': Arena<V>, levels': seq<Level>)
    requires WellIndexed(nodes, lvl, levels) && WellIndexed(nodes', lvl, levels') && |levels'| == |levels|
    requires forall L', k :: 0 <= L' < |levels| ==>
      (k in KeysOf(nodes', levels'[L']) <==> k in KeysOf(nodes, levels[L']) && (L' != L || k != x))
    ensures forall L': int, s :: Holds(nodes', levels', L', s) <==> Holds(nodes, levels, L', s) && (L' != L || Str(s) != x)
  {
  }

  /** The map after an unlink: at level 0 it loses the key, above it is unchanged. */
  lemma UnlinkMap<V>(nodes: Arena<V>, levels: seq<Level>, L: nat, i: nat, x: Key, nodes': Arena<V>, levels': seq<Level>)
    requires L < |levels| && 0 < i < |levels[L]| - 1 && InArena(nodes, levels[L]) && InArena(nodes, levels[0])
    requires Ascending(KeysOf(nodes, levels[0])) && x == nodes[levels[L][i]].key && x.Str?
    requires SameLabels(nodes, nodes') && |nodes'| == |nodes| && levels' == Removed(levels, L, i)
    ensures MapOf(nodes', levels'[0]) == if L == 0 then MapOf(nodes, levels[0]) - {x.s} else MapOf(nodes, levels[0])
  {
    if L == 0 {
      MapOfRemove(nodes, nodes', levels[0], i);
    } else {
      MapOfFrame(nodes, nodes', levels[0]);
    }
  }

  /** The key of a level-0 node that is not a sentinel is in the map. */
  lemma KeyPresent<V>(nodes: Arena<V>, lvl: seq<nat>, levels: seq<Level>, i: nat, k: JString)
    requires Inv(nodes, lvl, levels, NoHole) && i < |levels[0]| && nodes[levels[0][i]].key == Str(k)
    ensures k in MapOf(nodes, levels[0])
  {
    InnerAt(nodes, lvl, levels, NoHole, 0, i);
    LevelOkAt(nodes, lvl, levels, NoHole, 0);
    MapOfHas(nodes, levels[0], i);
  }

  /** A node of an ordinary key sits strictly inside its level, between the sentinels. */
  lemma InnerAt<V>(nodes: Arena<V>, lvl: seq<nat>, levels: seq<Level>, hole: Hole, L: nat, j: nat)
    requires Inv(nodes, lvl, levels, hole) && L < |levels| && j < |levels[L]|
    requires nodes[levels[L][j]].key.Str?
    ensures 0 < j < |levels[L]| - 1
  {
    LevelOkAt(nodes, lvl, levels, hole, L);
    var ks := KeysOf(nodes, levels[L]);
    assert ks[j] == nodes[levels[L][j]].key;
  }

  /** The horizontal links of an inner node of a level lead to its neighbours there. */
  lemma Neighbours<V>(nodes: Arena<V>, lvl: seq<nat>, levels: seq<Level>, hole: Hole, L: nat, i: nat)
    requires Inv(nodes, lvl, levels, hole) && L < |levels| && 0 < i < |levels[L]| - 1
    ensures nodes[levels[L][i]].left == Some(levels[L][i - 1]) && nodes[levels[L][i]].right == Some(levels[L][i + 1])
  {
    LevelOkAt(nodes, lvl, levels, hole, L);
    assert LinkedAt(nodes, levels[L], i);
  }

  /**
   * Where the `up` link of the node at j on level L leads, away from the
   * hole: to the node of the same key one level higher, which points back
   * down to it, exactly when that level holds the key.
   */
  lemma TowerUp<V>(nodes: Arena<V>, lvl: seq<nat>, levels: seq<Level>, hole: Hole, L: nat, j: nat)
    requires Inv(nodes, lvl, levels, hole) && L < |levels| && j < |levels[L]|
    requires hole != Hole(nodes[levels[L][j]].key, L)
    ensures nodes[levels[L][j]].up.Some? <==>
      L + 1 < |levels| && nodes[levels[L][j]].key in KeysOf(nodes, levels[L + 1])
    ensures nodes[levels[L][j]].up.Some? ==>
      var w := nodes[levels[L][j]].up.value;
      w in levels[L + 1] && lvl[w] == L + 1 && nodes[w].key == nodes[levels[L][j]].key &&
      nodes[w].down == Some(levels[L][j])
    ensures lvl[levels[L][j]] == L && (L == 0 ==> nodes[levels[L][j]].down == None)
  {
    UpAt(nodes, lvl, levels, hole, L, j);
    LevelOkAt(nodes, lvl, levels, hole, L);
    if nodes[levels[L][j]].up.Some? {
      DownOfUp(nodes, lvl, levels, hole, L, j);
      LevelDistinct(nodes, lvl, levels, hole, L + 1);
    }
  }

  /** The arena after one step down the removed tower: p.down and then d.up become null. */
  ghost function ClearedArena<V>(nodes: Arena<V>, p: nat, d: nat): Arena<V>
    requires p < |nodes| && d < |nodes|
  {
    var a := nodes[p := nodes[p].(down := None)];
    a[d := a[d].(up := None)]
  }

  /** Nulling vertical links between two nodes no level holds keeps the invariant. */
  lemma ClearStep<V>(nodes: Arena<V>, lvl: seq<nat>, levels: seq<Level>, p: nat, d: nat, nodes': Arena<V>)
    requires Inv(nodes, lvl, levels, NoHole) && p < |nodes| && d < |nodes|
    requires OffLevels(levels, p) && OffLevels(levels, d)
    requires nodes' == ClearedArena(nodes, p, d)
    ensures Inv(nodes', lvl, levels, NoHole)
  {
    var a := nodes[p := nodes[p].(down := None)];
    OffLevelsFrame(nodes, lvl, levels, NoHole, p, a);
    OffLevelsFrame(a, lvl, levels, NoHole, d, nodes');
  }

  /**
   * The nodes of key k unlinked so far by `remove`, from level 0 up: each
   * tagged with its level, without horizontal links, and linked to its
   * neighbours in the list by `down` and `up`.
   */
  ghost predicate TowerLinks<V>(nodes: Arena<V>, lvl: seq<nat>, tower: seq<nat>, k: JString) {
    |tower| >= 1 && |lvl| == |nodes| &&
    (forall j :: 0 <= j < |tower| ==>
       tower[j] < |nodes| && lvl[tower[j]] == j && nodes[tower[j]].key == Str(k) &&
       nodes[tower[j]].left == None && nodes[tower[j]].right == None) &&
    nodes[tower[0]].down == None &&
    (forall j :: 0 < j < |tower| ==> nodes[tower[j]].down == Some(tower[j - 1])) &&
    (forall j :: 0 <= j < |tower| - 1 ==> nodes[tower[j]].up == Some(tower[j + 1]))
  }

  /**
   * Where the `up` link of p, the unlinked node of k on level m, leads: to
   * the node of k on level m + 1, which points back down to p, or nowhere
   * when level m + 1 does not hold k.
   */
  ghost predicate UpNext<V>(nodes: Arena<V>, lvl: seq<nat>, levels: seq<Level>, p: nat, m: nat, k: JString) {
    p < |nodes| && |lvl| == |nodes| &&
    if nodes[p].up.Some? then
      var w := nodes[p].up.value;
      m + 1 < |levels| && w in levels[m + 1] && w < |nodes| && lvl[w] == m + 1 &&
      nodes[w].key == Str(k) && nodes[w].down == Some(p)
    else !Holds(nodes, levels, m + 1, k)
  }

  /**
   * Unlinking the node of k at i on level L, the one the tower so far
   * points up to, extends the tower by it, and its `up` link leads on.
   */
  lemma TowerStep<V>(nodes: Arena<V>, lvl: seq<nat>, levels: seq<Level>, L: nat, i: nat, k: JString,
                     nodes': Arena<V>, levels': seq<Level>, tower: seq<nat>)
    requires L < |levels| && i < |levels[L]|
    requires Inv(nodes, lvl, levels, if L == 0 then NoHole else Hole(Str(k), L - 1))
    requires nodes[levels[L][i]].key == Str(k) && |tower| == L
    requires L > 0 ==> TowerLinks(nodes, lvl, tower, k)
    requires L > 0 ==> UpNext(nodes, lvl, levels, tower[L - 1], L - 1, k) && nodes[tower[L - 1]].up == Some(levels[L][i])
    requires |nodes'| == |nodes| && nodes'[levels[L][i]] == nodes[levels[L][i]].(left := None, right := None)
    requires forall n :: 0 <= n < |nodes'| && lvl[n] != L ==> nodes'[n] == nodes[n]
    requires levels' == Removed(levels, L, i)
    requires forall L', s :: Holds(nodes', levels', L', s) <==> Holds(nodes, levels, L', s) && (L' != L || s != k)
    ensures TowerLinks(nodes', lvl, tower + [levels[L][i]], k)
    ensures UpNext(nodes', lvl, levels', levels[L][i], L, k)
  {
    TowerUp(nodes, lvl, levels, if L == 0 then NoHole else Hole(Str(k), L - 1), L, i);
  }

  /**
   * When the top of the unlinked tower has no `up` link the climb is over:
   * the invariant holds without the hole, no level holds k, and no level
   * holds a node of the tower.
   */
  lemma TowerDone<V>(nodes: Arena<V>, lvl: seq<nat>, levels: seq<Level>, tower: seq<nat>, m: nat, k: JString)
    requires m < |levels| && Inv(nodes, lvl, levels, Hole(Str(k), m))
    requires TowerLinks(nodes, lvl, tower, k) && |tower| == m + 1
    requires UpNext(nodes, lvl, levels, tower[m], m, k) && nodes[tower[m]].up == None
    ensures Inv(nodes, lvl, levels, NoHole)
    ensures forall L: int :: !Holds(nodes, levels, L, k)
    ensures forall j :: 0 <= j < |tower| ==> OffLevels(levels, tower[j])
  {
    HoleClose(nodes, lvl, levels, Str(k), m);
    forall L: int | Holds(nodes, levels, L, k) ensures false {
      KeysBelow(nodes, lvl, levels, L, Str(k));
      LevelOkAt(nodes, lvl, levels, Hole(Str(k), m), 0);
    }
    forall j | 0 <= j < |tower| ensures OffLevels(levels, tower[j]) {
      assert !Holds(nodes, levels, j, k);
      NotOnLevels(nodes, lvl, levels, NoHole, tower[j]);
    }
  }

  /**
   * While `remove` clears the tower from the top down to its node at j:
   * the nodes above j are detached, the rest still linked vertically, and
   * nothing else has changed since nodes0.
   */
  ghost predicate Clearing<V>(nodes0: Arena<V>, nodes: Arena<V>, lvl: seq<nat>, levels: seq<Level>, tower: seq<nat>, j: nat) {
    j < |tower| && |nodes| == |nodes0| && |lvl| == |nodes| && SameLabels(nodes0, nodes) &&
    (forall n :: 0 <= n < |nodes| && n !in tower ==> nodes[n] == nodes0[n]) &&
    (forall c :: 0 <= c < |tower| ==>
       tower[c] < |nodes| && lvl[tower[c]] == c && OffLevels(levels, tower[c]) &&
       nodes[tower[c]].left == None && nodes[tower[c]].right == None) &&
    (forall c :: j < c < |tower| ==> Detached(nodes[tower[c]])) &&
    nodes[tower[j]].up == None && nodes[tower[0]].down == None && (0 < j ==> nodes[tower[j]].down.Some?) &&
    (forall c :: 0 < c <= j ==> nodes[tower[c]].down == Some(tower[c - 1])) &&
    (forall c :: 0 <= c < j ==> nodes[tower[c]].up == Some(tower[c + 1]))
  }

  /** A tower whose top has no `up` link and whose nodes are off the levels is ready to clear. */
  lemma ClearingStart<V>(nodes: Arena<V>, lvl: seq<nat>, levels: seq<Level>, tower: seq<nat>, k: JString)
    requires TowerLinks(nodes, lvl, tower, k) && nodes[tower[|tower| - 1]].up == None
    requires forall c :: 0 <= c < |tower| ==> OffLevels(levels, tower[c])
    ensures Clearing(nodes, nodes, lvl, levels, tower, |tower| - 1)
  {
    var t := |tower| - 1;
    if 0 < t {
      assert nodes[tower[t]].down == Some(tower[t - 1]);
    }
  }

  /** One step down: the node at j loses `down`, the one below loses `up`. */
  lemma ClearingStep<V>(nodes0: Arena<V>, nodes: Arena<V>, lvl: seq<nat>, levels: seq<Level>, tower: seq<nat>, j: nat,
                        nodes': Arena<V>)
    requires Inv(nodes, lvl, levels, NoHole) && Clearing(nodes0, nodes, lvl, levels, tower, j) && 0 < j
    requires nodes' == ClearedArena(nodes, tower[j], tower[j - 1])
    ensures Inv(nodes', lvl, levels, NoHole) && Clearing(nodes0, nodes', lvl, levels, tower, j - 1)
  {
    ClearStep(nodes, lvl, levels, tower[j], tower[j - 1], nodes');
    ClearingNext(nodes0, nodes, lvl, levels, tower, j, nodes');
  }

  /** The tower facts of one step down, apart from the invariant. */
  lemma ClearingNext<V>(nodes0: Arena<V>, nodes: Arena<V>, lvl: seq<nat>, levels: seq<Level>, tower: seq<nat>, j: nat,
                        nodes': Arena<V>)
    requires Clearing(nodes0, nodes, lvl, levels, tower, j) && 0 < j
    requires nodes' == ClearedArena(nodes, tower[j], tower[j - 1])
    ensures Clearing(nodes0, nodes', lvl, levels, tower, j - 1)
  {
    var p, d := tower[j], tower[j - 1];
    forall c | 0 <= c < |tower|
      ensures nodes'[tower[c]] == if c == j then nodes[p].(down := None)
                                  else if c == j - 1 then nodes[d].(up := None)
                                  else nodes[tower[c]]
    {
      assert lvl[tower[c]] == c && lvl[p] == j && lvl[d] == j - 1;
    }
    forall n | 0 <= n < |nodes'| && n !in tower ensures nodes'[n] == nodes0[n] {
      assert n != p && n != d;
    }
    if 1 < j {
      assert nodes[d].down == Some(tower[j - 2]);
    }
  }

  /** At the bottom the whole tower is detached, and the levels and the map are as before. */
  lemma ClearingDone<V>(nodes0: Arena<V>, nodes: Arena<V>, lvl: seq<nat>, levels: seq<Level>, tower: seq<nat>, j: nat)
    requires WellIndexed(nodes0, lvl, levels) && Clearing(nodes0, nodes, lvl, levels, tower, j)
    requires nodes[tower[j]].down == None
    ensures forall c :: 0 <= c < |tower| ==> Detached(nodes[tower[c]])
    ensures forall L: int, s :: Holds(nodes, levels, L, s) <==> Holds(nodes0, levels, L, s)
    ensures MapOf(nodes, levels[0]) == MapOf(nodes0, levels[0])
  {
    forall c | 0 <= c < |tower| ensures Detached(nodes[tower[c]]) {
      if c == 0 {
        assert nodes[tower[c]] == nodes[tower[j]];
      }
    }
    forall L | 0 <= L < |levels|
      ensures InArena(nodes, levels[L]) && KeysOf(nodes, levels[L]) == KeysOf(nodes0, levels[L])
    {
      KeysOfSameKeys(nodes0, nodes, levels[L]);
    }
    MapOfFrame(nodes0, nodes, levels[0]);
  }

  /**
   * The top level's `head.right` link, as the last loop of `remove` reads it:
   * it leads to the tail's key exactly when the level holds no ordinary key.
   */
  ghost predicate TopLink<V>(nodes: Arena<V>, levels: seq<Level>) {
    |levels| >= 1 && |levels[|levels| - 1]| >= 2 && InArena(nodes, levels[|levels| - 1]) &&
    var top := levels[|levels| - 1];
    nodes[top[0]].right == Some(top[1]) &&
    (nodes[top[1]].key == nodes[top[|top| - 1]].key <==> |top| == 2)
  }

  /**
   * Under the invariant the top level's `head.right` link behaves as
   * `remove` expects.
   */
  lemma TopRight<V>(nodes: Arena<V>, lvl: seq<nat>, levels: seq<Level>)
    requires Inv(nodes, lvl, levels, NoHole)
    ensures TopLink(nodes, levels)
  {
    var T := |levels| - 1;
    var top := levels[T];
    LevelOkAt(nodes, lvl, levels, NoHole, T);
    SentinelFacts(nodes, lvl, levels, T);
    assert LinkedAt(nodes, top, 0);
    var ks := KeysOf(nodes, top);
    if |top| > 2 {
      AscendingBefore(ks, 1, |ks| - 1);
      KeyLtIrreflexive(ks[1]);
    }
  }

  /** The sentinels of a level above level 0 point down to the sentinels of the level below. */
  lemma SentinelsDown<V>(nodes: Arena<V>, lvl: seq<nat>, levels: seq<Level>, L: nat)
    requires Inv(nodes, lvl, levels, NoHole) && 0 < L < |levels|
    ensures |levels[L]| >= 2 && |levels[L - 1]| >= 2
    ensures nodes[levels[L][0]].down == Some(levels[L - 1][0])
    ensures nodes[levels[L][|levels[L]| - 1]].down == Some(levels[L - 1][|levels[L - 1]| - 1])
  {
    LevelOkAt(nodes, lvl, levels, NoHole, L);
    SentinelFacts(nodes, lvl, levels, L);
    LevelOkAt(nodes, lvl, levels, NoHole, L - 1);
    SentinelFacts(nodes, lvl, levels, L - 1);
    LevelDistinct(nodes, lvl, levels, NoHole, L - 1);
    var top, below := levels[L], levels[L - 1];
    var d0, d1 := nodes[top[0]].down.value, nodes[top[|top| - 1]].down.value;
    var j0 :| 0 <= j0 < |below| && below[j0] == d0;
    var j1 :| 0 <= j1 < |below| && below[j1] == d1;
  }

  /** The arena after `remove` drops an empty top level of sentinels h, t above p1, p2. */
  ghost function TrimmedArena<V>(nodes: Arena<V>, h: nat, t: nat, p1: nat, p2: nat): Arena<V>
    requires h < |nodes| && t < |nodes| && p1 < |nodes| && p2 < |nodes|
  {
    var a := nodes[h := nodes[h].(right := None)];
    var b := a[h := a[h].(down := None)];
    var c := b[t := b[t].(left := None)];
    var d := c[t := c[t].(down := None)];
    var e := d[p1 := d[p1].(up := None)];
    e[p2 := e[p2].(up := None)]
  }

  /** The writes that drop the top level, on four distinct sentinels, are a trim. */
  lemma TrimmedArenaTrimmed<V>(nodes: Arena<V>, levels: seq<Level>, nodes': Arena<V>)
    requires |levels| >= 2 && |levels[|levels| - 1]| == 2 && |levels[|levels| - 2]| >= 2
    requires InArena(nodes, levels[|levels| - 1]) && InArena(nodes, levels[|levels| - 2])
    requires var h, t := levels[|levels| - 1][0], levels[|levels| - 1][1];
      var p1, p2 := levels[|levels| - 2][0], levels[|levels| - 2][|levels[|levels| - 2]| - 1];
      h != t && h != p1 && h != p2 && t != p1 && t != p2 && p1 != p2 &&
      nodes' == TrimmedArena(nodes, h, t, p1, p2)
    ensures Trimmed(nodes, levels, nodes')
  {
  }

  /**
   * Dropping an empty top level keeps the invariant, which level holds
   * which ordinary key, and the map, and leaves its sentinels detached.
   */
  lemma TrimStep<V>(nodes: Arena<V>, lvl: seq<nat>, levels: seq<Level>, nodes': Arena<V>, levels': seq<Level>)
    requires Inv(nodes, lvl, levels, NoHole) && |levels| >= 2 && |levels[|levels| - 1]| == 2
    requires |levels[|levels| - 2]| >= 2 && InArena(nodes, levels[|levels| - 1]) && InArena(nodes, levels[|levels| - 2])
    requires nodes' == TrimmedArena(nodes, levels[|levels| - 1][0], levels[|levels| - 1][1],
      levels[|levels| - 2][0], levels[|levels| - 2][|levels[|levels| - 2]| - 1])
    requires levels' == levels[..|levels| - 1]
    ensures Inv(nodes', lvl, levels', NoHole)
    ensures Detached(nodes'[levels[|levels| - 1][0]]) && Detached(nodes'[levels[|levels| - 1][1]])
    ensures forall L: int, s :: Holds(nodes', levels', L, s) <==> Holds(nodes, levels, L, s)
    ensures MapOf(nodes', levels'[0]) == MapOf(nodes, levels[0])
    ensures |nodes'| == |nodes| && Trimmed(nodes, levels, nodes')
  {
    var T := |levels| - 1;
    TrimTopFacts(nodes, lvl, levels);
    LevelDistinct(nodes, lvl, levels, NoHole, T);
    LevelDistinct(nodes, lvl, levels, NoHole, T - 1);
    TrimmedArenaTrimmed(nodes, levels, nodes');
    TrimOk(nodes, lvl, levels, nodes');
    TrimHolds(nodes, lvl, levels, nodes', levels');
    LevelOkAt(nodes, lvl, levels, NoHole, 0);
    MapOfFrame(nodes, nodes', levels[0]);
  }

  /** Which level holds which key after the empty top level is dropped. */
  lemma TrimHolds<V>(nodes: Arena<V>, lvl: seq<nat>, levels: seq<Level>, nodes': Arena<V>, levels': seq<Level>)
    requires WellIndexed(nodes, lvl, levels) && |levels| >= 2 && levels' == levels[..|levels| - 1]
    requires WellIndexed(nodes', lvl, levels')
    requires KeysOf(nodes, levels[|levels| - 1]) == [NegInf, PosInf]
    requires forall L :: 0 <= L < |levels| - 1 ==> KeysOf(nodes', levels[L]) == KeysOf(nodes, levels[L])
    ensures forall L: int, s :: Holds(nodes', levels', L, s) <==> Holds(nodes, levels, L, s)
  {
    forall L: int, s | 0 <= L < |levels|
      ensures Holds(nodes', levels', L, s) <==> Holds(nodes, levels, L, s)
    {
      if L < |levels| - 1 {
        assert levels'[L] == levels[L];
      }
    }
  }

  // Nodes leaving the levels during `remove`.

  /** Dropping levels from the top takes nodes off the levels and puts none back. */
  lemma OffPrefix(levels: seq<Level>, m: nat)
    requires m <= |levels|
    ensures forall n :: OffLevels(levels, n) ==> OffLevels(levels[..m], n)
  {
    forall n | OffLevels(levels, n) ensures OffLevels(levels[..m], n) {
      forall L, j | 0 <= L < m && 0 <= j < |levels[..m][L]| ensures levels[..m][L][j] != n {
        assert levels[..m][L] == levels[L];
      }
    }
  }

  /** Unlinking the node at i on level L takes exactly that node off the levels. */
  lemma OffRemoved(levels: seq<Level>, L: nat, i: nat)
    requires L < |levels| && i < |levels[L]|
    ensures !OffLevels(levels, levels[L][i])
    ensures forall n :: OffLevels(levels, n) ==> OffLevels(Removed(levels, L, i), n)
    ensures forall n :: !OffLevels(levels, n) && OffLevels(Removed(levels, L, i), n) ==> n == levels[L][i]
  {
    var levels' := Removed(levels, L, i);
    RemoveAtMembers(levels[L], i);
    forall n | OffLevels(levels, n) ensures OffLevels(levels', n) {
      forall L', j | 0 <= L' < |levels'| && 0 <= j < |levels'[L']| ensures levels'[L'][j] != n {
        if L' == L {
          assert levels'[L'][j] in levels[L];
        } else {
          assert levels'[L'] == levels[L'];
        }
      }
    }
    forall n | !OffLevels(levels, n) && n != levels[L][i] ensures !OffLevels(levels', n) {
      var L', j :| 0 <= L' < |levels| && 0 <= j < |levels[L']| && levels[L'][j] == n;
      if L' == L {
        assert n in levels'[L];
        var j' :| 0 <= j' < |levels'[L]| && levels'[L][j'] == n;
      } else {
        assert levels'[L'][j] == n;
      }
    }
  }

  /** The nodes that were off the levels keep their fields. */
  ghost predicate Untouched<V>(nodes0: Arena<V>, levels0: seq<Level>, nodes: Arena<V>) {
    |nodes| == |nodes0| &&
    forall n :: 0 <= n < |nodes| && OffLevels(levels0, n) ==> nodes[n] == nodes0[n]
  }

  /**
   * While `remove` unlinks the tower of a key: the nodes that have left the
   * levels since nodes0, levels0 are the tower's, which were all on them,
   * and the nodes that were off the levels are untouched.
   */
  ghost predicate Unlinking<V>(nodes0: Arena<V>, levels0: seq<Level>, nodes: Arena<V>, levels: seq<Level>, tower: seq<nat>) {
    |nodes| == |nodes0| &&
    (forall n :: OffLevels(levels0, n) ==> OffLevels(levels, n)) &&
    (forall n :: 0 <= n < |nodes| && OffLevels(levels0, n) ==> nodes[n] == nodes0[n]) &&
    (forall n :: !OffLevels(levels0, n) && OffLevels(levels, n) ==> n in tower) &&
    (forall j :: 0 <= j < |tower| ==> !OffLevels(levels0, tower[j]))
  }

  /** One more unlink, which touches only nodes on the levels, extends the tower by the unlinked node. */
  lemma UnlinkingStep<V>(nodes0: Arena<V>, levels0: seq<Level>, nodes1: Arena<V>, levels1: seq<Level>,
                         tower: seq<nat>, L: nat, i: nat, nodes: Arena<V>)
    requires Unlinking(nodes0, levels0, nodes1, levels1, tower)
    requires L < |levels1| && i < |levels1[L]| && Untouched(nodes1, levels1, nodes)
    ensures Unlinking(nodes0, levels0, nodes, Removed(levels1, L, i), tower + [levels1[L][i]])
  {
    OffRemoved(levels1, L, i);
    var t' := tower + [levels1[L][i]];
    forall j | 0 <= j < |t'| ensures !OffLevels(levels0, t'[j]) {
      if j == |tower| {
        assert t'[j] == levels1[L][i];
      } else {
        assert t'[j] == tower[j];
      }
    }
  }

  /**
   * From nodes0, levels0 to nodes, levels: the nodes that were off the levels
   * are as they were, and the nodes that have left the levels are detached.
   */
  ghost predicate OffFrame<V>(nodes0: Arena<V>, levels0: seq<Level>, nodes: Arena<V>, levels: seq<Level>) {
    |nodes| == |nodes0| &&
    (forall n :: 0 <= n < |nodes| && OffLevels(levels0, n) ==> nodes[n] == nodes0[n]) &&
    (forall n :: 0 <= n < |nodes| && !OffLevels(levels0, n) && OffLevels(levels, n) ==> Detached(nodes[n]))
  }

  /** Two such steps, the second on a prefix of the first one's levels, make one. */
  lemma OffFrameTrans<V>(nodes0: Arena<V>, levels0: seq<Level>, nodes1: Arena<V>, levels1: seq<Level>,
                         nodes2: Arena<V>, levels2: seq<Level>)
    requires OffFrame(nodes0, levels0, nodes1, levels1) && OffFrame(nodes1, levels1, nodes2, levels2)
    requires |levels1| <= |levels0| && levels1 == levels0[..|levels1|]
    ensures OffFrame(nodes0, levels0, nodes2, levels2)
  {
    OffPrefix(levels0, |levels1|);
  }

  /**
   * Where `remove` ends: the nodes that were off the levels are as they
   * were, and the nodes that left the levels are detached.
   */
  lemma RemovedNodes<V>(nodes0: Arena<V>, levels0: seq<Level>, nodesU: Arena<V>, levelsU: seq<Level>,
                        tower: seq<nat>, nodesC: Arena<V>, nodes: Arena<V>, levels: seq<Level>)
    requires Unlinking(nodes0, levels0, nodesU, levelsU, tower)
    requires |nodesC| == |nodesU| && |nodes| == |nodesC|
    requires forall j :: 0 <= j < |tower| ==> tower[j] < |nodesC| && Detached(nodesC[tower[j]])
    requires forall n :: 0 <= n < |nodesC| && n !in tower ==> nodesC[n] == nodesU[n]
    requires OffFrame(nodesC, levelsU, nodes, levels)
    requires |levels| <= |levelsU| && levels == levelsU[..|levels|]
    ensures |nodes| == |nodes0|
    ensures forall n :: 0 <= n < |nodes| && OffLevels(levels0, n) ==> nodes[n] == nodes0[n]
    ensures forall n :: 0 <= n < |nodes| && !OffLevels(levels0, n) && OffLevels(levels, n) ==> Detached(nodes[n])
  {
    OffPrefix(levelsU, |levels|);
    forall n | 0 <= n < |nodes| && OffLevels(levels0, n) ensures nodes[n] == nodes0[n] {
      assert n !in tower;
    }
    forall n | 0 <= n < |nodes| && !OffLevels(levels0, n) && OffLevels(levels, n) ensures Detached(nodes[n]) {
      if OffLevels(levelsU, n) {
        var j :| 0 <= j < |tower| && tower[j] == n;
      }
    }
  }

  /**
   * Dropping an empty top level touches only its sentinels and the two
   * below them: nodes off the levels are untouched, and the nodes that
   * leave the levels, the dropped sentinels, are detached.
   */
  lemma TrimNodes<V>(nodes: Arena<V>, levels: seq<Level>, nodes': Arena<V>, levels': seq<Level>)
    requires |levels| >= 2 && |levels[|levels| - 1]| == 2 && Trimmed(nodes, levels, nodes')
    requires levels' == levels[..|levels| - 1]
    requires Detached(nodes'[levels[|levels| - 1][0]]) && Detached(nodes'[levels[|levels| - 1][1]])
    ensures OffFrame(nodes, levels, nodes', levels')
  {
    var T := |levels| - 1;
    forall n | 0 <= n < |nodes'| && OffLevels(levels, n) ensures nodes'[n] == nodes[n] {
      assert levels[T][0] != n && levels[T][1] != n;
      assert levels[T - 1][0] != n && levels[T - 1][|levels[T - 1]| - 1] != n;
    }
    forall n | !OffLevels(levels, n) && n != levels[T][0] && n != levels[T][1] ensures !OffLevels(levels', n) {
      var L, j :| 0 <= L < |levels| && 0 <= j < |levels[L]| && levels[L][j] == n;
      assert L < T;
      assert levels'[L][j] == n;
    }
  }

  /**
   * From nodes0, levels0 to nodes, levels, `remove` has dropped only top
   * levels holding just their two sentinels: which level holds which key,
   * the map, and the nodes off the levels are as they were, and the dropped
   * sentinels are detached.
   */
  ghost predicate Trimming<V>(nodes0: Arena<V>, levels0: seq<Level>, nodes: Arena<V>, levels: seq<Level>) {
    1 <= |levels| <= |levels0| && levels == levels0[..|levels|] &&
    (forall L :: |levels| <= L < |levels0| ==> |levels0[L]| == 2) &&
    InArena(nodes0, levels0[0]) && InArena(nodes, levels[0]) &&
    MapOf(nodes, levels[0]) == MapOf(nodes0, levels0[0]) &&
    (forall L: int, s :: Holds(nodes, levels, L, s) <==> Holds(nodes0, levels0, L, s)) &&
    OffFrame(nodes0, levels0, nodes, levels)
  }

  /** Nothing dropped yet. */
  lemma TrimmingStart<V>(nodes: Arena<V>, lvl: seq<nat>, levels: seq<Level>)
    requires Inv(nodes, lvl, levels, NoHole)
    ensures Trimming(nodes, levels, nodes, levels)
  {
    LevelOkAt(nodes, lvl, levels, NoHole, 0);
    assert levels == levels[..|levels|];
  }

  /** Two rounds of dropping make one. */
  lemma TrimmingTrans<V>(nodes0: Arena<V>, levels0: seq<Level>, nodes1: Arena<V>, levels1: seq<Level>,
                         nodes2: Arena<V>, levels2: seq<Level>)
    requires Trimming(nodes0, levels0, nodes1, levels1) && Trimming(nodes1, levels1, nodes2, levels2)
    ensures Trimming(nodes0, levels0, nodes2, levels2)
  {
    OffFrameTrans(nodes0, levels0, nodes1, levels1, nodes2, levels2);
    assert levels2 == levels0[..|levels2|];
    forall L | |levels2| <= L < |levels0| ensures |levels0[L]| == 2 {
      if L < |levels1| {
        assert levels1[L] == levels0[L];
      }
    }
  }

  /**
   * Dropping the empty top level: the invariant holds for the levels below,
   * its sentinels are detached, and it is one round of `Trimming`.
   */
  lemma DropOk<V>(nodes: Arena<V>, lvl: seq<nat>, levels: seq<Level>, nodes': Arena<V>, levels': seq<Level>)
    requires Inv(nodes, lvl, levels, NoHole) && |levels| >= 2 && |levels[|levels| - 1]| == 2
    requires |levels[|levels| - 2]| >= 2 && InArena(nodes, levels[|levels| - 1]) && InArena(nodes, levels[|levels| - 2])
    requires nodes' == TrimmedArena(nodes, levels[|levels| - 1][0], levels[|levels| - 1][1],
      levels[|levels| - 2][0], levels[|levels| - 2][|levels[|levels| - 2]| - 1])
    requires levels' == levels[..|levels| - 1]
    ensures Inv(nodes', lvl, levels', NoHole)
    ensures Detached(nodes'[levels[|levels| - 1][0]]) && Detached(nodes'[levels[|levels| - 1][1]])
    ensures Trimming(nodes, levels, nodes', levels')
    ensures |levels'| == |levels| - 1 && levels'[|levels'| - 1] == levels[|levels| - 2]
  {
    TrimStep(nodes, lvl, levels, nodes', levels');
    TrimNodes(nodes, levels, nodes', levels');
    LevelOkAt(nodes, lvl, levels, NoHole, 0);
    LevelOkAt(nodes', lvl, levels', NoHole, 0);
  }

  /**
   * While `remove` climbs the tower of k: from nodes0, levels0 it has
   * unlinked k from levels 0 .. m, whose nodes, bottom up, are `tower`;
   * nothing else has left any level, and k has left the map.
   */
  ghost predicate Climbing<V>(nodes0: Arena<V>, levels0: seq<Level>, nodes: Arena<V>, lvl: seq<nat>, levels: seq<Level>,
                              tower: seq<nat>, m: nat, k: JString) {
    m < |levels| == |levels0| && |levels0[0]| >= 1 && |levels[0]| == |levels0[0]| - 1 &&
    |tower| == m + 1 && TowerLinks(nodes, lvl, tower, k) &&
    UpNext(nodes, lvl, levels, tower[m], m, k) &&
    InArena(nodes0, levels0[0]) && InArena(nodes, levels[0]) &&
    MapOf(nodes, levels[0]) == MapOf(nodes0, levels0[0]) - {k} &&
    (forall L: int, s :: Holds(nodes, levels, L, s) <==> Holds(nodes0, levels0, L, s) && (L > m || s != k)) &&
    Unlinking(nodes0, levels0, nodes, levels, tower)
  }

  /** The unlink of k's level-0 node starts the climb. */
  lemma ClimbStart<V>(nodes0: Arena<V>, lvl: seq<nat>, levels0: seq<Level>, i0: nat, k: JString,
                      nodes: Arena<V>, levels: seq<Level>)
    requires Inv(nodes0, lvl, levels0, NoHole) && i0 < |levels0[0]| && nodes0[levels0[0][i0]].key == Str(k)
    requires |nodes| == |nodes0| && nodes[levels0[0][i0]] == nodes0[levels0[0][i0]].(left := None, right := None)
    requires forall n :: 0 <= n < |nodes| && lvl[n] != 0 ==> nodes[n] == nodes0[n]
    requires levels == Removed(levels0, 0, i0) && InArena(nodes, levels[0])
    requires forall L, s :: Holds(nodes, levels, L, s) <==> Holds(nodes0, levels0, L, s) && (L != 0 || s != k)
    requires MapOf(nodes, levels[0]) == MapOf(nodes0, levels0[0]) - {k}
    requires Untouched(nodes0, levels0, nodes)
    ensures Climbing(nodes0, levels0, nodes, lvl, levels, [levels0[0][i0]], 0, k)
  {
    TowerStep(nodes0, lvl, levels0, 0, i0, k, nodes, levels, []);
    UnlinkingStep(nodes0, levels0, nodes0, levels0, [], 0, i0, nodes);
    LevelOkAt(nodes0, lvl, levels0, NoHole, 0);
    assert [] + [levels0[0][i0]] == [levels0[0][i0]];
  }

  /** Unlinking the node of k that `up` leads to moves the climb one level up. */
  lemma ClimbStep<V>(nodes0: Arena<V>, levels0: seq<Level>, nodes1: Arena<V>, lvl: seq<nat>, levels1: seq<Level>,
                     tower: seq<nat>, m: nat, k: JString, i: nat, nodes: Arena<V>, levels: seq<Level>)
    requires Inv(nodes1, lvl, levels1, Hole(Str(k), m))
    requires Climbing(nodes0, levels0, nodes1, lvl, levels1, tower, m, k)
    requires m + 1 < |levels1| && i < |levels1[m + 1]| && nodes1[tower[m]].up == Some(levels1[m + 1][i])
    requires |nodes| == |nodes1| && nodes[levels1[m + 1][i]] == nodes1[levels1[m + 1][i]].(left := None, right := None)
    requires forall n :: 0 <= n < |nodes| && lvl[n] != m + 1 ==> nodes[n] == nodes1[n]
    requires levels == Removed(levels1, m + 1, i) && InArena(nodes, levels[0])
    requires forall L, s :: Holds(nodes, levels, L, s) <==> Holds(nodes1, levels1, L, s) && (L != m + 1 || s != k)
    requires MapOf(nodes, levels[0]) == MapOf(nodes1, levels1[0])
    requires Untouched(nodes1, levels1, nodes)
    ensures Climbing(nodes0, levels0, nodes, lvl, levels, tower + [levels1[m + 1][i]], m + 1, k)
  {
    TowerStep(nodes1, lvl, levels1, m + 1, i, k, nodes, levels, tower);
    UnlinkingStep(nodes0, levels0, nodes1, levels1, tower, m + 1, i, nodes);
    assert levels[0] == levels1[0];
    var t' := tower + [levels1[m + 1][i]];
    assert t'[m + 1] == levels1[m + 1][i];
  }
}
