/**
 * The shape of a skip list held in an arena of entries.
 *
 * `levels[L]` lists the arena indices of the nodes of level L from the `negInf`
 * sentinel to the `posInf` sentinel (level 0 is the bottom level), and `lvl[n]`
 * is the level node `n` was created for. `Inv` ties the links stored in the
 * entries to this ghost picture: each level is a doubly linked list in strictly
 * ascending key order, a key present at some level is present on the level
 * below, `down` goes to the same key one level lower, `up` goes to the same key
 * one level higher when it is there and is null otherwise, and only the
 * ordinary nodes of level 0 hold values.
 */
module SkipListShape {
  import opened Wrappers
  import opened JavaStrings
  import opened Entries

  /** Key order: `negInf` below every other key, `posInf` above, ordinary keys by `compareTo`. */
  predicate KeyLt(a: Key, b: Key) {
    if a == NegInf then b != NegInf
    else if b == PosInf then a != PosInf
    else a.Str? && b.Str? && CompareTo(a.s, b.s) < 0
  }

  predicate KeyLe(a: Key, b: Key) {
    a == b || KeyLt(a, b)
  }

  lemma KeyLtIrreflexive(a: Key)
    ensures !KeyLt(a, a)
  {
    if a.Str? {
      CompareToZero(a.s, a.s);
    }
  }

  lemma KeyLtTransitive(a: Key, b: Key, c: Key)
    requires KeyLt(a, b) && KeyLt(b, c)
    ensures KeyLt(a, c)
  {
    if a.Str? && b.Str? && c.Str? {
      CompareToTransitive(a.s, b.s, c.s);
    }
  }

  lemma KeyLtTotal(a: Key, b: Key)
    ensures KeyLt(a, b) || a == b || KeyLt(b, a)
    ensures !(KeyLt(a, b) && KeyLt(b, a))
  {
    if a.Str? && b.Str? {
      CompareToZero(a.s, b.s);
      CompareToAntisymmetric(a.s, b.s);
    }
  }

  /** The comparison `key.compareTo(k) <= 0` of an ordinary key is `KeyLe`. */
  lemma CompareToIsKeyLe(key: Key, k: JString)
    requires key.Str?
    ensures CompareTo(KeyText(key), k) <= 0 <==> KeyLe(key, Str(k))
  {
    CompareToZero(key.s, k);
  }

  // Sequence surgery on a level: splicing in one node, unlinking one node.

  function InsertAt<T>(s: seq<T>, i: nat, x: T): (r: seq<T>)
    requires i <= |s|
    ensures |r| == |s| + 1 && r[i] == x
    ensures forall j :: 0 <= j < i ==> r[j] == s[j]
    ensures forall j :: i < j < |r| ==> r[j] == s[j - 1]
  {
    s[..i] + [x] + s[i..]
  }

  function RemoveAt<T>(s: seq<T>, i: nat): (r: seq<T>)
    requires i < |s|
    ensures |r| == |s| - 1
    ensures forall j :: 0 <= j < i ==> r[j] == s[j]
    ensures forall j :: i <= j < |r| ==> r[j] == s[j + 1]
  {
    s[..i] + s[i + 1..]
  }

  lemma InsertAtMembers<T>(s: seq<T>, i: nat, x: T)
    requires i <= |s|
    ensures forall y :: y in InsertAt(s, i, x) <==> y in s || y == x
  {
    assert InsertAt(s, i, x) == s[..i] + [x] + s[i..];
    assert s == s[..i] + s[i..];
  }

  lemma RemoveAtMembers<T>(s: seq<T>, i: nat)
    requires i < |s|
    ensures forall y :: y in RemoveAt(s, i) ==> y in s
    ensures forall y :: y in s && y != s[i] ==> y in RemoveAt(s, i)
  {
    assert RemoveAt(s, i) == s[..i] + s[i + 1..];
    assert s == s[..i] + [s[i]] + s[i + 1..];
  }

  // Levels of an arena.

  type Arena<V> = seq<Entry<V>>
  type Level = seq<nat>

  ghost predicate InArena<V>(nodes: Arena<V>, lv: Level) {
    forall i :: 0 <= i < |lv| ==> lv[i] < |nodes|
  }

  /** The keys of a level, left to right. */
  ghost function KeysOf<V>(nodes: Arena<V>, lv: Level): seq<Key>
    requires InArena(nodes, lv)
  {
    seq(|lv|, i requires 0 <= i < |lv| => nodes[lv[i]].key)
  }

  ghost predicate Ascending(ks: seq<Key>) {
    forall i, j :: 0 <= i < j < |ks| ==> KeyLt(ks[i], ks[j])
  }

  /** Strictly ascending between the two sentinels. */
  ghost predicate Bounded(ks: seq<Key>) {
    |ks| >= 2 && ks[0] == NegInf && ks[|ks| - 1] == PosInf && Ascending(ks)
  }

  /** The `left`/`right` links of a level's nodes follow the level's order. */
  ghost predicate Linked<V>(nodes: Arena<V>, lv: Level)
    requires InArena(nodes, lv)
  {
    forall i :: 0 <= i < |lv| ==> LinkedAt(nodes, lv, i)
  }

  ghost predicate LinkedAt<V>(nodes: Arena<V>, lv: Level, i: nat)
    requires InArena(nodes, lv) && i < |lv|
  {
    nodes[lv[i]].left == (if i == 0 then None else Some(lv[i - 1])) &&
    nodes[lv[i]].right == (if i == |lv| - 1 then None else Some(lv[i + 1]))
  }

  ghost predicate WellIndexed<V>(nodes: Arena<V>, lvl: seq<nat>, levels: seq<Level>) {
    |lvl| == |nodes| && |levels| >= 1 &&
    forall L :: 0 <= L < |levels| ==> InArena(nodes, levels[L])
  }

  /**
   * While `remove` climbs a tower, key `x` is already gone from levels 0..m
   * but may still be on level m + 1, whose node still points down to the
   * unlinked node below it.
   */
  datatype Hole = NoHole | Hole(x: Key, m: nat)

  /** Every node of level L below level 0 points down to its own key on level L - 1. */
  ghost predicate DownOk<V>(nodes: Arena<V>, lvl: seq<nat>, levels: seq<Level>, hole: Hole, L: nat)
    requires WellIndexed(nodes, lvl, levels) && L < |levels|
  {
    forall i :: 0 <= i < |levels[L]| ==>
      if L == 0 then nodes[levels[L][i]].down == None
      else
        hole == Hole(nodes[levels[L][i]].key, L - 1) ||
        (nodes[levels[L][i]].down.Some? &&
         nodes[levels[L][i]].down.value in levels[L - 1] &&
         nodes[nodes[levels[L][i]].down.value].key == nodes[levels[L][i]].key)
  }

  /** `up` leads to the same key one level higher if it is there, and is null otherwise. */
  ghost predicate UpOk<V>(nodes: Arena<V>, lvl: seq<nat>, levels: seq<Level>, L: nat)
    requires WellIndexed(nodes, lvl, levels) && L < |levels|
  {
    forall i :: 0 <= i < |levels[L]| ==>
      if L + 1 < |levels| && nodes[levels[L][i]].key in KeysOf(nodes, levels[L + 1]) then
        nodes[levels[L][i]].up.Some? &&
        nodes[levels[L][i]].up.value in levels[L + 1] &&
        nodes[nodes[levels[L][i]].up.value].key == nodes[levels[L][i]].key
      else nodes[levels[L][i]].up == None
  }

  /** The keys of level L + 1 are keys of level L (the hole excepted). */
  ghost predicate SubsetOk<V>(nodes: Arena<V>, lvl: seq<nat>, levels: seq<Level>, hole: Hole, L: nat)
    requires WellIndexed(nodes, lvl, levels) && L + 1 < |levels|
  {
    forall k :: k in KeysOf(nodes, levels[L + 1]) ==> k in KeysOf(nodes, levels[L]) || hole == Hole(k, L)
  }

  /** Level L's horizontal shape: sentinels, order, links, level tags and values. */
  ghost predicate LevelShape<V>(nodes: Arena<V>, lvl: seq<nat>, levels: seq<Level>, L: nat)
    requires WellIndexed(nodes, lvl, levels) && L < |levels|
  {
    Bounded(KeysOf(nodes, levels[L])) && Linked(nodes, levels[L]) &&
    (forall i :: 0 <= i < |levels[L]| ==> lvl[levels[L][i]] == L) &&
    (forall i :: 0 <= i < |levels[L]| ==>
       (nodes[levels[L][i]].value.Some? <==> L == 0 && 0 < i < |levels[L]| - 1))
  }

  ghost predicate LevelOk<V>(nodes: Arena<V>, lvl: seq<nat>, levels: seq<Level>, hole: Hole, L: nat)
    requires WellIndexed(nodes, lvl, levels) && L < |levels|
  {
    LevelShape(nodes, lvl, levels, L) &&
    DownOk(nodes, lvl, levels, hole, L) &&
    UpOk(nodes, lvl, levels, L) &&
    (L + 1 < |levels| ==> SubsetOk(nodes, lvl, levels, hole, L)) &&
    (hole.Hole? && L <= hole.m ==> hole.x !in KeysOf(nodes, levels[L]))
  }

  /** The skip list invariant (with `NoHole`: between public operations). */
  ghost predicate Inv<V>(nodes: Arena<V>, lvl: seq<nat>, levels: seq<Level>, hole: Hole) {
    WellIndexed(nodes, lvl, levels) &&
    forall L :: 0 <= L < |levels| ==> LevelOk(nodes, lvl, levels, hole, L)
  }

  /** One level's part of the invariant. */
  lemma LevelOkAt<V>(nodes: Arena<V>, lvl: seq<nat>, levels: seq<Level>, hole: Hole, L: nat)
    requires Inv(nodes, lvl, levels, hole) && L < |levels|
    ensures LevelOk(nodes, lvl, levels, hole, L)
  {
  }

  /** What the `up` link of a node of a level says (the hole plays no part in it). */
  lemma UpAt<V>(nodes: Arena<V>, lvl: seq<nat>, levels: seq<Level>, hole: Hole, L: nat, j: nat)
    requires Inv(nodes, lvl, levels, hole) && L < |levels| && j < |levels[L]|
    ensures nodes[levels[L][j]].up.Some? <==>
      L + 1 < |levels| && nodes[levels[L][j]].key in KeysOf(nodes, levels[L + 1])
    ensures nodes[levels[L][j]].up.Some? ==>
      nodes[levels[L][j]].up.value in levels[L + 1] &&
      nodes[nodes[levels[L][j]].up.value].key == nodes[levels[L][j]].key
  {
    LevelOkAt(nodes, lvl, levels, hole, L);
  }

  // The search steps of `findEntry`.

  /**
   * From a node whose key is at most an ordinary key k, the `right` link
   * leads to the next node of the level, whose key is not `negInf`.
   */
  lemma StepRight<V>(nodes: Arena<V>, lvl: seq<nat>, levels: seq<Level>, L: nat, i: nat, k: JString)
    requires Inv(nodes, lvl, levels, NoHole) && L < |levels| && i < |levels[L]|
    requires KeyLe(nodes[levels[L][i]].key, Str(k))
    ensures i + 1 < |levels[L]| && nodes[levels[L][i]].right == Some(levels[L][i + 1])
    ensures nodes[levels[L][i + 1]].key != NegInf
  {
    LevelOkAt(nodes, lvl, levels, NoHole, L);
    var ks := KeysOf(nodes, levels[L]);
    assert ks[i] == nodes[levels[L][i]].key;
    assert LinkedAt(nodes, levels[L], i);
    assert KeyLt(ks[0], ks[i + 1]);
  }

  /**
   * Below the top level, a node whose `up` is null is not the `negInf`
   * sentinel, so its `left` link leads to the previous node of its level.
   */
  lemma StepLeft<V>(nodes: Arena<V>, lvl: seq<nat>, levels: seq<Level>, L: nat, j: nat)
    requires Inv(nodes, lvl, levels, NoHole) && L + 1 < |levels| && j < |levels[L]|
    requires nodes[levels[L][j]].up == None
    ensures 0 < j && nodes[levels[L][j]].left == Some(levels[L][j - 1])
  {
    LevelOkAt(nodes, lvl, levels, NoHole, L);
    LevelOkAt(nodes, lvl, levels, NoHole, L + 1);
    UpAt(nodes, lvl, levels, NoHole, L, j);
    var ks, us := KeysOf(nodes, levels[L]), KeysOf(nodes, levels[L + 1]);
    assert ks[j] == nodes[levels[L][j]].key;
    assert LinkedAt(nodes, levels[L], j);
  }

  /** `down` is null exactly on level 0 and otherwise leads to the same key one level lower. */
  lemma StepDown<V>(nodes: Arena<V>, lvl: seq<nat>, levels: seq<Level>, L: nat, i: nat)
    requires Inv(nodes, lvl, levels, NoHole) && L < |levels| && i < |levels[L]|
    ensures nodes[levels[L][i]].down.Some? <==> L > 0
    ensures L > 0 ==>
      nodes[levels[L][i]].down.value in levels[L - 1] &&
      nodes[nodes[levels[L][i]].down.value].key == nodes[levels[L][i]].key
  {
    LevelOkAt(nodes, lvl, levels, NoHole, L);
  }

  /** The keys of two adjacent levels: both bounded, the upper within the lower. */
  lemma AdjacentKeys<V>(nodes: Arena<V>, lvl: seq<nat>, levels: seq<Level>, L: nat)
    requires Inv(nodes, lvl, levels, NoHole) && L + 1 < |levels|
    ensures Bounded(KeysOf(nodes, levels[L])) && Bounded(KeysOf(nodes, levels[L + 1]))
    ensures forall k :: k in KeysOf(nodes, levels[L + 1]) ==> k in KeysOf(nodes, levels[L])
  {
    LevelOkAt(nodes, lvl, levels, NoHole, L);
    LevelOkAt(nodes, lvl, levels, NoHole, L + 1);
  }

  /** Every key of a level is a key of level 0: a tower stands on a level-0 node. */
  lemma {:induction false} KeysBelow<V>(nodes: Arena<V>, lvl: seq<nat>, levels: seq<Level>, L: nat, k: Key)
    requires Inv(nodes, lvl, levels, NoHole) && L < |levels|
    requires InArena(nodes, levels[L]) && k in KeysOf(nodes, levels[L])
    ensures InArena(nodes, levels[0]) && k in KeysOf(nodes, levels[0])
    decreases L
  {
    if L > 0 {
      AdjacentKeys(nodes, lvl, levels, L - 1);
      LevelOkAt(nodes, lvl, levels, NoHole, L - 1);
      KeysBelow(nodes, lvl, levels, L - 1, k);
    }
  }

  /** The top level holds an ordinary key unless it is level 0. */
  ghost predicate TopOk(levels: seq<Level>)
    requires |levels| >= 1
  {
    |levels| == 1 || |levels[|levels| - 1]| > 2
  }

  /** Node n is on no level. */
  ghost predicate OffLevels(levels: seq<Level>, n: nat) {
    forall L, j :: 0 <= L < |levels| && 0 <= j < |levels[L]| ==> levels[L][j] != n
  }

  // Facts about ascending key sequences.

  lemma AscendingDistinct(ks: seq<Key>)
    requires Ascending(ks)
    ensures forall i, j :: 0 <= i < |ks| && 0 <= j < |ks| && ks[i] == ks[j] ==> i == j
  {
    forall i, j | 0 <= i < |ks| && 0 <= j < |ks| && ks[i] == ks[j]
      ensures i == j
    {
      KeyLtIrreflexive(ks[i]);
    }
  }

  lemma AscendingBefore(ks: seq<Key>, a: nat, b: nat)
    requires Ascending(ks) && a < b < |ks|
    ensures KeyLt(ks[a], ks[b])
  {
  }

  /** In an ascending sequence, a smaller key comes first. */
  lemma AscendingOrder(ks: seq<Key>, a: nat, b: nat)
    requires Ascending(ks) && a < |ks| && b < |ks| && KeyLt(ks[a], ks[b])
    ensures a < b
  {
    if b < a {
      KeyLtTransitive(ks[a], ks[b], ks[a]);
    }
    KeyLtIrreflexive(ks[a]);
  }

  /**
   * Between two neighbours `ks[i] <= x < ks[i + 1]`, x is one of the keys
   * exactly when it is `ks[i]`.
   */
  lemma NeighboursDecide(ks: seq<Key>, i: nat, x: Key)
    requires Ascending(ks) && i + 1 < |ks|
    requires KeyLe(ks[i], x) && KeyLt(x, ks[i + 1])
    ensures x in ks <==> ks[i] == x
  {
    if x in ks {
      var j :| 0 <= j < |ks| && ks[j] == x;
      if j < i {
        KeyLtTransitive(ks[j], ks[i], x);
        KeyLtIrreflexive(x);
      } else if j > i {
        if j > i + 1 {
          KeyLtTransitive(x, ks[i + 1], ks[j]);
        }
        KeyLtIrreflexive(x);
      }
    }
  }

  /** Splicing a key between two neighbours it lies strictly between keeps the order. */
  lemma InsertBounded(ks: seq<Key>, i: nat, x: Key)
    requires Bounded(ks) && 0 < i < |ks|
    requires KeyLt(ks[i - 1], x) && KeyLt(x, ks[i])
    ensures Bounded(InsertAt(ks, i, x))
  {
    var r := InsertAt(ks, i, x);
    forall a, b | 0 <= a < b < |r| ensures KeyLt(r[a], r[b]) {
      if b < i || a > i {
      } else if a == i {
        if b > i + 1 { KeyLtTransitive(x, ks[i], ks[b - 1]); }
      } else if b == i {
        if a < i - 1 { KeyLtTransitive(ks[a], ks[i - 1], x); }
      }
    }
  }

  /** Nodes of one level are told apart by their keys. */
  lemma LevelDistinct<V>(nodes: Arena<V>, lvl: seq<nat>, levels: seq<Level>, hole: Hole, L: nat)
    requires Inv(nodes, lvl, levels, hole) && L < |levels|
    ensures forall j, j' ::
      (0 <= j < |levels[L]| && 0 <= j' < |levels[L]| &&
       nodes[levels[L][j]].key == nodes[levels[L][j']].key) ==> j == j'
    ensures forall j, j' :: 0 <= j < j' < |levels[L]| ==> levels[L][j] != levels[L][j']
    ensures forall n :: n in levels[L] ==> lvl[n] == L
  {
    LevelOkAt(nodes, lvl, levels, hole, L);
    var ks := KeysOf(nodes, levels[L]);
    AscendingDistinct(ks);
    forall j, j' | 0 <= j < |levels[L]| && 0 <= j' < |levels[L]| &&
      nodes[levels[L][j]].key == nodes[levels[L][j']].key
      ensures j == j'
    {
      assert ks[j] == ks[j'];
    }
  }

  // Frames: what a change to some entries leaves intact.

  /** The keys of the existing nodes are untouched; new nodes may be appended. */
  ghost predicate SameKeys<V>(nodes: Arena<V>, nodes': Arena<V>) {
    |nodes| <= |nodes'| && forall n :: 0 <= n < |nodes| ==> nodes'[n].key == nodes[n].key
  }

  /** Keys and values of the existing nodes are untouched. */
  ghost predicate SameLabels<V>(nodes: Arena<V>, nodes': Arena<V>) {
    SameKeys(nodes, nodes') && forall n :: 0 <= n < |nodes| ==> nodes'[n].value == nodes[n].value
  }

  lemma KeysOfSameKeys<V>(nodes: Arena<V>, nodes': Arena<V>, lv: Level)
    requires SameKeys(nodes, nodes') && InArena(nodes, lv)
    ensures InArena(nodes', lv) && KeysOf(nodes', lv) == KeysOf(nodes, lv)
  {
  }

  lemma LinkedFrame<V>(nodes: Arena<V>, nodes': Arena<V>, lv: Level)
    requires InArena(nodes, lv) && InArena(nodes', lv) && Linked(nodes, lv)
    requires forall j :: 0 <= j < |lv| ==>
      nodes'[lv[j]].left == nodes[lv[j]].left && nodes'[lv[j]].right == nodes[lv[j]].right
    ensures Linked(nodes', lv)
  {
    forall j | 0 <= j < |lv| ensures LinkedAt(nodes', lv, j) {
      assert LinkedAt(nodes, lv, j);
    }
  }
}
