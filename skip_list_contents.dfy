/**
 * The map a skip list stands for: the ordinary keys of level 0 with the values
 * their level-0 nodes hold.
 */
module SkipListContents {
  import opened Wrappers
  import opened JavaStrings
  import opened Entries
  import opened SkipListShape

  /** The key/value pairs held by the nodes of a level (a key further left wins). */
  ghost function MapOf<V>(nodes: Arena<V>, lv: Level): map<JString, V>
    requires InArena(nodes, lv)
    decreases |lv|
  {
    if lv == [] then map[]
    else
      var rest := MapOf(nodes, lv[1..]);
      var e := nodes[lv[0]];
      if e.key.Str? && e.value.Some? then rest[e.key.s := e.value.value] else rest
  }

  /** Only the keys and values of the level's nodes matter, not their links. */
  lemma {:induction false} MapOfFrame<V>(nodes: Arena<V>, nodes': Arena<V>, lv: Level)
    requires InArena(nodes, lv) && InArena(nodes', lv)
    requires forall j :: 0 <= j < |lv| ==>
      nodes'[lv[j]].key == nodes[lv[j]].key && nodes'[lv[j]].value == nodes[lv[j]].value
    ensures MapOf(nodes', lv) == MapOf(nodes, lv)
    decreases |lv|
  {
    if lv != [] {
      MapOfFrame(nodes, nodes', lv[1..]);
    }
  }

  /** A key of no node of the level is not in the map. */
  lemma {:induction false} MapOfLacks<V>(nodes: Arena<V>, lv: Level, s: JString)
    requires InArena(nodes, lv) && Str(s) !in KeysOf(nodes, lv)
    ensures s !in MapOf(nodes, lv)
    decreases |lv|
  {
    if lv != [] {
      assert KeysOf(nodes, lv[1..]) == KeysOf(nodes, lv)[1..];
      assert KeysOf(nodes, lv)[0] == nodes[lv[0]].key;
      MapOfLacks(nodes, lv[1..], s);
    }
  }

  /** On a level with distinct keys, a node's key maps to the node's value. */
  lemma {:induction false} MapOfHas<V>(nodes: Arena<V>, lv: Level, j: nat)
    requires InArena(nodes, lv) && Ascending(KeysOf(nodes, lv)) && j < |lv|
    requires nodes[lv[j]].key.Str? && nodes[lv[j]].value.Some?
    ensures nodes[lv[j]].key.s in MapOf(nodes, lv)
    ensures MapOf(nodes, lv)[nodes[lv[j]].key.s] == nodes[lv[j]].value.value
    decreases |lv|
  {
    if j > 0 {
      assert KeysOf(nodes, lv[1..]) == KeysOf(nodes, lv)[1..];
      MapOfHas(nodes, lv[1..], j - 1);
      assert KeysOf(nodes, lv)[0] != KeysOf(nodes, lv)[j] by {
        KeyLtIrreflexive(KeysOf(nodes, lv)[0]);
      }
    }
  }

  /** Splicing in a node with a fresh ordinary key and a value adds that pair. */
  lemma {:induction false} MapOfInsert<V>(nodes: Arena<V>, nodes': Arena<V>, lv: Level, i: nat, q: nat, s: JString, v: V)
    requires InArena(nodes, lv) && InArena(nodes', lv) && i <= |lv| && q < |nodes'|
    requires forall j :: 0 <= j < |lv| ==>
      nodes'[lv[j]].key == nodes[lv[j]].key && nodes'[lv[j]].value == nodes[lv[j]].value
    requires nodes'[q].key == Str(s) && nodes'[q].value == Some(v)
    requires Str(s) !in KeysOf(nodes, lv)
    ensures InArena(nodes', InsertAt(lv, i, q))
    ensures MapOf(nodes', InsertAt(lv, i, q)) == MapOf(nodes, lv)[s := v]
    decreases |lv|
  {
    var lv' := InsertAt(lv, i, q);
    if i == 0 {
      assert lv'[1..] == lv;
      MapOfFrame(nodes, nodes', lv);
    } else {
      assert lv'[1..] == InsertAt(lv[1..], i - 1, q);
      assert KeysOf(nodes, lv[1..]) == KeysOf(nodes, lv)[1..];
      MapOfInsert(nodes, nodes', lv[1..], i - 1, q, s, v);
      assert KeysOf(nodes, lv)[0] == nodes[lv[0]].key;
    }
  }

  /** The first key of an ascending level occurs nowhere further right. */
  lemma FirstKeyUnique<V>(nodes: Arena<V>, lv: Level)
    requires InArena(nodes, lv) && Ascending(KeysOf(nodes, lv)) && |lv| > 0
    ensures nodes[lv[0]].key !in KeysOf(nodes, lv[1..])
  {
    var ks := KeysOf(nodes, lv);
    assert KeysOf(nodes, lv[1..]) == ks[1..];
    if nodes[lv[0]].key in ks[1..] {
      var j :| 0 <= j < |ks[1..]| && ks[1..][j] == ks[0];
      assert KeyLt(ks[0], ks[j + 1]);
      KeyLtIrreflexive(ks[0]);
    }
  }

  /** Unlinking the node of an ordinary key removes that key. */
  lemma {:induction false} MapOfRemove<V>(nodes: Arena<V>, nodes': Arena<V>, lv: Level, i: nat)
    requires InArena(nodes, lv) && Ascending(KeysOf(nodes, lv)) && i < |lv|
    requires InArena(nodes', lv)
    requires forall j :: 0 <= j < |lv| && j != i ==>
      nodes'[lv[j]].key == nodes[lv[j]].key && nodes'[lv[j]].value == nodes[lv[j]].value
    requires nodes[lv[i]].key.Str?
    ensures InArena(nodes', RemoveAt(lv, i))
    ensures MapOf(nodes', RemoveAt(lv, i)) == MapOf(nodes, lv) - {nodes[lv[i]].key.s}
    decreases |lv|
  {
    var lv' := RemoveAt(lv, i);
    var s := nodes[lv[i]].key.s;
    FirstKeyUnique(nodes, lv);
    if i == 0 {
      assert lv' == lv[1..];
      MapOfFrame(nodes, nodes', lv');
      MapOfLacks(nodes, lv[1..], s);
    } else {
      assert KeysOf(nodes, lv[1..]) == KeysOf(nodes, lv)[1..];
      assert lv'[0] == lv[0] && lv'[1..] == RemoveAt(lv[1..], i - 1);
      MapOfRemove(nodes, nodes', lv[1..], i - 1);
      assert KeysOf(nodes, lv[1..])[i - 1] == Str(s);
      RemoveStep(MapOf(nodes, lv[1..]), nodes[lv[0]], s);
    }
  }

  /** Removing a key commutes with adding the first node's pair when the keys differ. */
  lemma RemoveStep<V>(rest: map<JString, V>, e: Entry<V>, s: JString)
    requires e.key != Str(s)
    ensures (if e.key.Str? && e.value.Some? then (rest - {s})[e.key.s := e.value.value] else rest - {s}) ==
            (if e.key.Str? && e.value.Some? then rest[e.key.s := e.value.value] else rest) - {s}
  {
  }

  /** Storing a new value in the node of an ordinary key rebinds that key. */
  lemma {:induction false} MapOfUpdate<V>(nodes: Arena<V>, nodes': Arena<V>, lv: Level, i: nat, v: V)
    requires InArena(nodes, lv) && Ascending(KeysOf(nodes, lv)) && i < |lv|
    requires InArena(nodes', lv)
    requires forall j :: 0 <= j < |lv| && j != i ==>
      nodes'[lv[j]].key == nodes[lv[j]].key && nodes'[lv[j]].value == nodes[lv[j]].value
    requires nodes[lv[i]].key.Str? && nodes'[lv[i]].key == nodes[lv[i]].key
    requires nodes'[lv[i]].value == Some(v)
    ensures MapOf(nodes', lv) == MapOf(nodes, lv)[nodes[lv[i]].key.s := v]
    decreases |lv|
  {
    assert KeysOf(nodes, lv[1..]) == KeysOf(nodes, lv)[1..];
    if i == 0 {
      MapOfFrame(nodes, nodes', lv[1..]);
    } else {
      MapOfUpdate(nodes, nodes', lv[1..], i - 1, v);
      assert KeysOf(nodes, lv)[0] != KeysOf(nodes, lv)[i] by {
        KeyLtIrreflexive(KeysOf(nodes, lv)[0]);
      }
    }
  }

  // The size of the map.

  /** The number of nodes of a level that hold a pair. */
  ghost function PairCount<V>(nodes: Arena<V>, lv: Level): nat
    requires InArena(nodes, lv)
    decreases |lv|
  {
    if lv == [] then 0
    else PairCount(nodes, lv[1..]) + (if nodes[lv[0]].key.Str? && nodes[lv[0]].value.Some? then 1 else 0)
  }

  /** On an ascending level every pair has its own key, so the map has one entry per pair. */
  lemma {:induction false} MapOfCount<V>(nodes: Arena<V>, lv: Level)
    requires InArena(nodes, lv) && Ascending(KeysOf(nodes, lv))
    ensures |MapOf(nodes, lv)| == PairCount(nodes, lv)
    decreases |lv|
  {
    if lv != [] {
      assert KeysOf(nodes, lv[1..]) == KeysOf(nodes, lv)[1..];
      MapOfCount(nodes, lv[1..]);
      var e := nodes[lv[0]];
      if e.key.Str? && e.value.Some? {
        FirstKeyUnique(nodes, lv);
        MapOfLacks(nodes, lv[1..], e.key.s);
      }
    }
  }

  /** Exactly the nodes at positions a .. b - 1 hold pairs: there are b - a of them. */
  lemma {:induction false} PairCountRange<V>(nodes: Arena<V>, lv: Level, a: nat, b: nat)
    requires InArena(nodes, lv) && a <= b <= |lv|
    requires forall j :: 0 <= j < |lv| ==>
      (nodes[lv[j]].key.Str? && nodes[lv[j]].value.Some? <==> a <= j < b)
    ensures PairCount(nodes, lv) == b - a
    decreases |lv|
  {
    if lv != [] {
      assert forall j :: 0 <= j < |lv[1..]| ==> lv[1..][j] == lv[j + 1];
      if a > 0 {
        PairCountRange(nodes, lv[1..], a - 1, b - 1);
      } else if b > 0 {
        PairCountRange(nodes, lv[1..], 0, b - 1);
      } else {
        PairCountRange(nodes, lv[1..], 0, 0);
      }
    }
  }
}
