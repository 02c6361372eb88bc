/**
 * The skip list itself: a map from strings to values kept as a tower of
 * sorted, doubly linked levels. Its entries live in the arena `nodes`, and a
 * link is the index of the entry it points to; `head` and `tail` are the
 * sentinels of the top level. `levels` and `lvl` are the ghost picture the
 * invariant `Valid` ties the links to (see SkipListShape).
 */
module SkipLists {
  import opened Wrappers
  import opened JavaStrings
  import opened Entries
  import opened SkipListShape
  import opened SkipListContents
  import opened SkipListInsert
  import opened SkipListLevels
  import opened SkipListRemove
  import opened SkipListSteps

  /** The length of the run of `true` at the front of the coin tosses. */
  function LeadingTrue(coins: seq<bool>): (n: nat)
    ensures n <= |coins|
    ensures forall c :: 0 <= c < n ==> coins[c]
    ensures n < |coins| ==> !coins[n]
    decreases |coins|
  {
    if coins == [] || !coins[0] then 0 else 1 + LeadingTrue(coins[1..])
  }

  class SkipList<V> {
    var nodes: seq<Entry<V>>
    var head: nat
    var tail: nat
    var size: int
    var height: int
    ghost var levels: seq<Level>
    ghost var lvl: seq<nat>

    /** The invariant, with `head` and `tail` the sentinels of the top level and `height` its number. */
    ghost predicate Shaped()
      reads this`nodes, this`lvl, this`levels, this`height, this`head, this`tail
    {
      ShapedWith(NoHole)
    }

    /** The same, while `remove` has unlinked a key from the levels up to the hole. */
    ghost predicate ShapedWith(hole: Hole)
      reads this`nodes, this`lvl, this`levels, this`height, this`head, this`tail
    {
      Inv(nodes, lvl, levels, hole) &&
      height == |levels| - 1 &&
      |levels[|levels| - 1]| >= 2 &&
      head == levels[|levels| - 1][0] &&
      tail == levels[|levels| - 1][|levels[|levels| - 1]| - 1]
    }

    /** Between public operations: also no empty top level, and `size` counts level 0. */
    ghost predicate Valid()
      reads this`nodes, this`lvl, this`levels, this`height, this`head, this`tail, this`size
    {
      Shaped() && TopOk(levels) && size == |levels[0]| - 2
    }

    /** The map the list stands for. */
    ghost function Contents(): map<JString, V>
      reads this`nodes, this`lvl, this`levels, this`height, this`head, this`tail, this`size
      requires Valid()
    {
      MapOf(nodes, levels[0])
    }

    /** Level L holds a node of the ordinary key s. */
    ghost predicate OnLevel(L: int, s: JString)
      reads this`nodes, this`levels
    {
      Holds(nodes, levels, L, s)
    }

    /** An empty list: one level holding only the two sentinels. */
    constructor ()
      ensures Valid() && Contents() == map[]
      ensures size == 0 && height == 0
      ensures forall L, s :: !OnLevel(L, s)
      ensures nodes[head].key == NegInf && nodes[tail].key == PosInf
      ensures nodes[head].right == Some(tail) && nodes[tail].left == Some(head)
      ensures nodes[head].value == None && nodes[tail].value == None
    {
      var h := NewEntry<V>(NegInf, None);
      var t := NewEntry<V>(PosInf, None);
      h := h.(right := Some(1));
      t := t.(left := Some(0));
      nodes := [h, t];
      head := 0;
      tail := 1;
      size := 0;
      height := 0;
      levels := [[0, 1]];
      lvl := [0, 0];
      new;
      assert KeysOf(nodes, levels[0]) == [NegInf, PosInf];
      assert LinkedAt(nodes, levels[0], 0) && LinkedAt(nodes, levels[0], 1);
      assert MapOf(nodes, levels[0][1..]) == map[];
    }

    /** The number of entries. */
    method Size() returns (r: int)
      requires Valid()
      ensures r == |Contents()|
    {
      r := size;
      CountEntries();
    }

    method IsEmpty() returns (r: bool)
      requires Valid()
      ensures r <==> Contents() == map[]
    {
      r := size == 0;
      CountEntries();
    }

    /** `size` counts the entries of the map. */
    lemma CountEntries()
      requires Valid()
      ensures size == |Contents()|
    {
      LevelOkAt(nodes, lvl, levels, NoHole, 0);
      var ks := KeysOf(nodes, levels[0]);
      forall j | 0 <= j < |levels[0]|
        ensures nodes[levels[0][j]].key.Str? && nodes[levels[0][j]].value.Some? <==> 1 <= j < |levels[0]| - 1
      {
        assert ks[j] == nodes[levels[0][j]].key;
        if 0 < j < |ks| - 1 {
          assert KeyLt(ks[0], ks[j]) && KeyLt(ks[j], ks[|ks| - 1]);
        }
      }
      MapOfCount(nodes, levels[0]);
      PairCountRange(nodes, levels[0], 1, |levels[0]| - 1);
    }

    /**
     * The search from the top-left sentinel: right while the next key is at
     * most k, then down, until level 0. It ends on the level-0 node with the
     * greatest key at most k.
     */
    method FindEntry(k: JString) returns (p: nat, ghost i: nat)
      requires Valid()
      ensures i + 1 < |levels[0]| && p == levels[0][i]
      ensures KeyLe(nodes[p].key, Str(k)) && KeyLt(Str(k), nodes[levels[0][i + 1]].key)
      ensures nodes[p].down == None && nodes[p].right == Some(levels[0][i + 1])
    {
      p := head;
      ghost var L: nat := |levels| - 1;
      i := 0;
      LevelOkAt(nodes, lvl, levels, NoHole, L);
      assert KeysOf(nodes, levels[L])[0] == NegInf;
      while true
        invariant L < |levels| && i < |levels[L]| && p == levels[L][i]
        invariant KeyLe(nodes[p].key, Str(k))
        decreases L
      {
        p, i := SearchRight(k, p, L, i);
        StepDown(nodes, lvl, levels, L, i);
        if nodes[p].down.Some? {
          p := nodes[p].down.value;
          L := L - 1;
          i :| 0 <= i < |levels[L]| && levels[L][i] == p;
        } else {
          break;
        }
      }
    }

    /** The walk right along level L to the last node whose key is at most k. */
    method SearchRight(k: JString, p0: nat, ghost L: nat, ghost i0: nat) returns (p: nat, ghost i: nat)
      requires Valid() && L < |levels| && i0 < |levels[L]| && p0 == levels[L][i0]
      requires KeyLe(nodes[p0].key, Str(k))
      ensures i0 <= i && i + 1 < |levels[L]| && p == levels[L][i]
      ensures KeyLe(nodes[p].key, Str(k)) && KeyLt(Str(k), nodes[levels[L][i + 1]].key)
      ensures nodes[p].right == Some(levels[L][i + 1])
    {
      p, i := p0, i0;
      StepRight(nodes, lvl, levels, L, i, k);
      while nodes[nodes[p].right.value].key != PosInf &&
            CompareTo(KeyText(nodes[nodes[p].right.value].key), k) <= 0
        invariant i0 <= i && i + 1 < |levels[L]| && p == levels[L][i]
        invariant KeyLe(nodes[p].key, Str(k))
        invariant nodes[p].right == Some(levels[L][i + 1]) && nodes[levels[L][i + 1]].key != NegInf
        decreases |levels[L]| - i
      {
        CompareToIsKeyLe(nodes[nodes[p].right.value].key, k);
        p := nodes[p].right.value;
        i := i + 1;
        StepRight(nodes, lvl, levels, L, i, k);
      }
      var r := levels[L][i + 1];
      if nodes[r].key.Str? {
        CompareToIsKeyLe(nodes[r].key, k);
      }
      KeyLtTotal(Str(k), nodes[r].key);
    }

    /** The value bound to k, if any. */
    method Get(k: JString) returns (r: Option<V>)
      requires Valid()
      ensures r == (if k in Contents() then Some(Contents()[k]) else None)
    {
      var p;
      ghost var i;
      p, i := FindEntry(k);
      LevelOkAt(nodes, lvl, levels, NoHole, 0);
      var ks := KeysOf(nodes, levels[0]);
      assert ks[i] == nodes[p].key && ks[i + 1] == nodes[levels[0][i + 1]].key;
      if KeyMatches(k, nodes[p].key) {
        r := nodes[p].value;
        assert ks[0] == NegInf;
        MapOfHas(nodes, levels[0], i);
      } else {
        r := None;
        NeighboursDecide(ks, i, Str(k));
        MapOfLacks(nodes, levels[0], k);
      }
    }

    /**
     * Stores v under k. An existing key gets the new value and its old value
     * is returned; a new key is spliced into level 0 and then, while the
     * coins come up true, one level higher each time, a new empty level being
     * stacked on top whenever the tower reaches the top.
     */
    method Put(k: JString, v: V, coins: seq<bool>) returns (previous: Option<V>)
      requires Valid()
      modifies this
      ensures Valid()
      ensures previous == (if k in old(Contents()) then Some(old(Contents())[k]) else None)
      ensures Contents() == old(Contents())[k := v]
      ensures size == old(size) + (if k in old(Contents()) then 0 else 1)
      ensures forall L, s :: s != k ==> (OnLevel(L, s) <==> old(OnLevel(L, s)))
      ensures k in old(Contents()) ==> forall L :: OnLevel(L, k) <==> old(OnLevel(L, k))
      ensures k !in old(Contents()) ==> forall L :: OnLevel(L, k) <==> 0 <= L <= LeadingTrue(coins)
      ensures height == if k in old(Contents()) || LeadingTrue(coins) <= old(height) then old(height)
                        else LeadingTrue(coins)
    {
      var p;
      ghost var i;
      p, i := FindEntry(k);
      if KeyMatches(k, nodes[p].key) {
        previous := Rebind(k, v, p, i);
      } else {
        InsertNew(k, v, coins, p, i);
        previous := None;
      }
    }

    /** The found node p holds k already: it gets the new value, and the old one is returned. */
    method Rebind(k: JString, v: V, p: nat, ghost i: nat) returns (previous: Option<V>)
      requires Valid() && i < |levels[0]| && p == levels[0][i] && nodes[p].key == Str(k)
      modifies this
      ensures Valid() && size == old(size) && height == old(height)
      ensures k in old(Contents()) && previous == Some(old(Contents())[k])
      ensures Contents() == old(Contents())[k := v]
      ensures forall L, s :: OnLevel(L, s) <==> old(OnLevel(L, s))
      ensures nodes == old(nodes)[p := old(nodes[p]).(value := Some(v))]
      ensures levels == old(levels) && lvl == old(lvl) && head == old(head) && tail == old(tail)
    {
      LevelOkAt(nodes, lvl, levels, NoHole, 0);
      ghost var ks := KeysOf(nodes, levels[0]);
      assert ks[i] == Str(k) && ks[0] == NegInf && ks[|ks| - 1] == PosInf;
      MapOfHas(nodes, levels[0], i);
      previous := nodes[p].value;
      ghost var nodes0 := nodes;
      LevelDistinct(nodes, lvl, levels, NoHole, 0);
      nodes := nodes[p := nodes[p].(value := Some(v))];
      SetValueOk(nodes0, lvl, levels, i, v, nodes);
      MapOfUpdate(nodes0, nodes, levels[0], i, v);
    }

    /**
     * k is new and belongs right after the found node p: a node of k is
     * spliced into level 0, and the tower grows one level per leading true coin.
     */
    method InsertNew(k: JString, v: V, coins: seq<bool>, p0: nat, ghost i: nat)
      requires Valid() && i + 1 < |levels[0]| && p0 == levels[0][i]
      requires KeyLe(nodes[p0].key, Str(k)) && nodes[p0].key != Str(k)
      requires KeyLt(Str(k), nodes[levels[0][i + 1]].key)
      modifies this
      ensures Valid() && size == old(size) + 1
      ensures k !in old(Contents()) && Contents() == old(Contents())[k := v]
      ensures forall L, s :: s != k ==> (OnLevel(L, s) <==> old(OnLevel(L, s)))
      ensures forall L :: OnLevel(L, k) <==> 0 <= L <= LeadingTrue(coins)
      ensures height == if LeadingTrue(coins) <= old(height) then old(height) else LeadingTrue(coins)
    {
      var p := p0;
      NewKeyAbsent(nodes, lvl, levels, i, k);
      var q := Splice(k, Some(v), p, None, 0, i);
      BuildTower(k, coins, p, q, i + 1);
      size := size + 1;
    }

    /**
     * The tower of k, so far the level-0 node q right after p: one more
     * storey per leading true coin.
     */
    method BuildTower(k: JString, coins: seq<bool>, p0: nat, q0: nat, ghost iq0: nat)
      requires Shaped() && TopOk(levels) && 0 < iq0 < |levels[0]|
      requires q0 == levels[0][iq0] && p0 == levels[0][iq0 - 1] && nodes[q0].key == Str(k)
      requires forall L :: OnLevel(L, k) <==> L == 0
      modifies this
      ensures Shaped() && TopOk(levels) && size == old(size) && |levels[0]| == old(|levels[0]|)
      ensures MapOf(nodes, levels[0]) == old(MapOf(nodes, levels[0]))
      ensures forall L, s :: s != k ==> (OnLevel(L, s) <==> old(OnLevel(L, s)))
      ensures forall L :: OnLevel(L, k) <==> 0 <= L <= LeadingTrue(coins)
      ensures height == if LeadingTrue(coins) <= old(height) then old(height) else LeadingTrue(coins)
    {
      var p, q := p0, q0;
      var currentLevel := 0;
      ghost var iq := iq0;
      while currentLevel < |coins| && coins[currentLevel]
        invariant Shaped() && TopOk(levels) && size == old(size) && |levels[0]| == old(|levels[0]|)
        invariant currentLevel <= |coins| && forall c :: 0 <= c < currentLevel ==> coins[c]
        invariant currentLevel < |levels| && 0 < iq < |levels[currentLevel]|
        invariant q == levels[currentLevel][iq] && p == levels[currentLevel][iq - 1]
        invariant nodes[q].key == Str(k)
        invariant MapOf(nodes, levels[0]) == old(MapOf(nodes, levels[0]))
        invariant forall L, s :: s != k ==> (OnLevel(L, s) <==> old(OnLevel(L, s)))
        invariant forall L :: OnLevel(L, k) <==> 0 <= L <= currentLevel
        invariant height == if currentLevel <= old(height) then old(height) else currentLevel
        decreases |coins| - currentLevel
      {
        p, q, iq := RaiseTower(k, p, q, currentLevel, iq);
        currentLevel := currentLevel + 1;
      }
      assert currentLevel == LeadingTrue(coins);
    }

    /**
     * One more storey on the tower of k whose top node q sits on level cur
     * right after p: a new empty top level first if the tower has reached the
     * top, then the climb from p to the nearest node one level up, and the
     * splice of a new node of k after it, linked down to q.
     */
    method RaiseTower(k: JString, p0: nat, q0: nat, cur: nat, ghost iq0: nat)
      returns (p: nat, q: nat, ghost iq: nat)
      requires Shaped() && TopOk(levels)
      requires cur < |levels| && 0 < iq0 < |levels[cur]|
      requires q0 == levels[cur][iq0] && p0 == levels[cur][iq0 - 1] && nodes[q0].key == Str(k)
      requires forall L :: OnLevel(L, k) <==> 0 <= L <= cur
      modifies this
      ensures Shaped() && TopOk(levels) && size == old(size) && |levels[0]| == old(|levels[0]|)
      ensures cur + 1 < |levels| && 0 < iq < |levels[cur + 1]|
      ensures q == levels[cur + 1][iq] && p == levels[cur + 1][iq - 1] && nodes[q].key == Str(k)
      ensures MapOf(nodes, levels[0]) == old(MapOf(nodes, levels[0]))
      ensures forall L, s :: s != k ==> (OnLevel(L, s) <==> old(OnLevel(L, s)))
      ensures forall L :: OnLevel(L, k) <==> 0 <= L <= cur + 1
      ensures height == if cur < old(height) then old(height) else cur + 1
    {
      if cur >= height {
        Grow();
      }
      assert nodes[q0].key == Str(k) && !OnLevel(cur + 1, k);
      ghost var ju;
      p, ju := Climb(p0, cur, iq0);
      q := Splice(k, None, p, Some(q0), cur + 1, ju);
      iq := ju + 1;
    }

    /**
     * The splice of a new node of key k right after p on level L: at level 0
     * it carries the value; above, it points down to the tower's previous top
     * `below`, which points up to it.
     */
    method Splice(k: JString, val: Option<V>, p: nat, below: Option<nat>, ghost L: nat, ghost i: nat) returns (e: nat)
      requires Shaped() && L < |levels| && i + 1 < |levels[L]| && p == levels[L][i]
      requires KeyLt(nodes[p].key, Str(k)) && KeyLt(Str(k), nodes[levels[L][i + 1]].key)
      requires val.Some? <==> L == 0
      requires L == 0 ==> below == None
      requires L > 0 ==> below.Some? && below.value in levels[L - 1] && nodes[below.value].key == Str(k)
      modifies this
      ensures Shaped() && size == old(size)
      ensures |nodes| == old(|nodes|) + 1 && e == old(|nodes|) && nodes[e].key == Str(k) && nodes[e].up == None
      ensures levels == old(Inserted(levels, L, i + 1, |nodes|)) && lvl == old(lvl) + [L]
      ensures forall L', s :: OnLevel(L', s) <==> old(OnLevel(L', s)) || (L' == L && s == k)
      ensures MapOf(nodes, levels[0]) ==
        if L == 0 then old(MapOf(nodes, levels[0]))[k := val.value] else old(MapOf(nodes, levels[0]))
    {
      ghost var nodes0, levels0 := nodes, levels;
      StepRight(nodes, lvl, levels, L, i, k);
      e := |nodes|;
      var node := NewEntry(Str(k), val);
      node := node.(left := Some(p));
      var r := nodes[p].right.value;
      node := node.(right := Some(r));
      if below.Some? {
        node := node.(down := below);
      }
      nodes := nodes + [node];
      nodes := nodes[r := nodes[r].(left := Some(e))];
      nodes := nodes[p := nodes[p].(right := Some(e))];
      if below.Some? {
        nodes := nodes[below.value := nodes[below.value].(up := Some(e))];
      }
      ghost var lvl0 := lvl;
      levels := Inserted(levels0, L, i + 1, e);
      lvl := lvl + [L];
      SpliceOk(nodes0, lvl0, levels0, L, i, k, val, below, node, nodes, levels);
    }

    /**
     * A new top level holding only two fresh sentinels, linked down to the
     * old `head` and `tail`, which become linked up to them.
     */
    method Grow()
      requires Shaped()
      modifies this
      ensures Shaped() && size == old(size) && height == old(height) + 1
      ensures levels == old(levels) + [[old(|nodes|), old(|nodes|) + 1]]
      ensures lvl == old(lvl) + [|old(levels)|, |old(levels)|]
      ensures |nodes| == old(|nodes|) + 2
      ensures forall n :: 0 <= n < old(|nodes|) && n != old(head) && n != old(tail) ==> nodes[n] == old(nodes[n])
      ensures forall n :: 0 <= n < old(|nodes|) ==> nodes[n].key == old(nodes[n].key)
      ensures forall L, s :: OnLevel(L, s) <==> old(OnLevel(L, s))
      ensures MapOf(nodes, levels[0]) == old(MapOf(nodes, levels[0]))
    {
      ghost var nodes0, levels0, lvl0 := nodes, levels, lvl;
      height := height + 1;
      var p1, p2 := |nodes|, |nodes| + 1;
      var e1 := NewEntry<V>(NegInf, None);
      var e2 := NewEntry<V>(PosInf, None);
      e1 := e1.(right := Some(p2));
      e1 := e1.(down := Some(head));
      e2 := e2.(left := Some(p1));
      e2 := e2.(down := Some(tail));
      nodes := nodes + [e1, e2];
      nodes := nodes[head := nodes[head].(up := Some(p1))];
      nodes := nodes[tail := nodes[tail].(up := Some(p2))];
      head := p1;
      tail := p2;
      levels := levels0 + [[p1, p2]];
      lvl := lvl + [|levels0|, |levels0|];
      GrowOk(nodes0, lvl0, levels0, e1, e2, nodes, lvl, levels);
    }

    /**
     * From p, the left neighbour on level L of the tower's top node at iq:
     * left until a node with an `up` link, then up. It ends on the node of
     * level L + 1 after which the tower's key belongs.
     */
    method Climb(p0: nat, ghost L: nat, ghost iq: nat) returns (p: nat, ghost ju: nat)
      requires Shaped() && L + 1 < |levels| && 0 < iq < |levels[L]| && p0 == levels[L][iq - 1]
      requires nodes[levels[L][iq]].key !in KeysOf(nodes, levels[L + 1])
      ensures ju + 1 < |levels[L + 1]| && p == levels[L + 1][ju]
      ensures KeyLt(nodes[p].key, nodes[levels[L][iq]].key)
      ensures KeyLt(nodes[levels[L][iq]].key, nodes[levels[L + 1][ju + 1]].key)
    {
      p := p0;
      ghost var j: nat := iq - 1;
      while nodes[p].up == None
        invariant j < iq && p == levels[L][j]
        invariant forall c :: j < c < iq ==> nodes[levels[L][c]].up == None
        decreases j
      {
        StepLeft(nodes, lvl, levels, L, j);
        p := nodes[p].left.value;
        j := j - 1;
      }
      UpAt(nodes, lvl, levels, NoHole, L, j);
      p := nodes[p].up.value;
      ju :| 0 <= ju < |levels[L + 1]| && levels[L + 1][ju] == p;
      TowerSlot(nodes, lvl, levels, L, j, iq, ju);
    }
    /**
     * Removes k: unlinks its node from level 0 and every level above it,
     * clears the vertical links of the removed tower, and drops the top
     * levels left empty. A key not in the list changes nothing.
     */
    method Remove(k: JString)
      requires Valid()
      modifies this
      ensures Valid()
      ensures Contents() == old(Contents()) - {k}
      ensures size == old(size) - (if k in old(Contents()) then 1 else 0)
      ensures forall L, s :: OnLevel(L, s) <==> old(OnLevel(L, s)) && s != k
      ensures k !in old(Contents()) ==>
        nodes == old(nodes) && levels == old(levels) && head == old(head) && tail == old(tail) && height == old(height)
      ensures |nodes| == old(|nodes|)
      ensures forall n :: 0 <= n < |nodes| && OffLevels(old(levels), n) ==> nodes[n] == old(nodes[n])
      ensures forall n :: 0 <= n < |nodes| && !OffLevels(old(levels), n) && OffLevels(levels, n) ==> Detached(nodes[n])
    {
      var p;
      ghost var i;
      p, i := FindEntry(k);
      if !KeyMatches(k, nodes[p].key) {
        NewKeyAbsent(nodes, lvl, levels, i, k);
        return;
      }
      KeyPresent(nodes, lvl, levels, i, k);
      RemoveTower(k, p, i);
      size := size - 1;
    }

    /**
     * The three loops of `remove` for a present key k, whose level-0 node is
     * p0: k leaves every level, and its nodes and the sentinels of the
     * dropped levels end detached.
     */
    method RemoveTower(k: JString, p0: nat, ghost i0: nat)
      requires Valid() && i0 < |levels[0]| && p0 == levels[0][i0] && nodes[p0].key == Str(k)
      modifies this`nodes, this`levels, this`head, this`tail, this`height
      ensures Shaped() && TopOk(levels) && |levels[0]| == old(|levels[0]|) - 1
      ensures MapOf(nodes, levels[0]) == old(Contents()) - {k}
      ensures forall L, s :: OnLevel(L, s) <==> old(OnLevel(L, s)) && s != k
      ensures |nodes| == old(|nodes|)
      ensures forall n :: 0 <= n < |nodes| && OffLevels(old(levels), n) ==> nodes[n] == old(nodes[n])
      ensures forall n :: 0 <= n < |nodes| && !OffLevels(old(levels), n) && OffLevels(levels, n) ==> Detached(nodes[n])
    {
      ghost var nodes0, levels0 := nodes, levels;
      var p;
      ghost var tower;
      p, tower := UnlinkTower(k, p0, i0);
      ghost var nodesU, levelsU := nodes, levels;
      ClearTower(p, tower, k);
      ghost var nodesC := nodes;
      TrimTop();
      RemovedNodes(nodes0, levels0, nodesU, levelsU, tower, nodesC, nodes, levels);
    }

    /**
     * Unlinks the node p at i on level L, whose key k is already gone from
     * the levels below: its neighbours are linked to each other and its own
     * horizontal links become null.
     */
    method Unlink(p: nat, ghost L: nat, ghost i: nat, ghost k: JString)
      requires ShapedWith(if L == 0 then NoHole else Hole(Str(k), L - 1))
      requires L < |levels| && 0 < i < |levels[L]| - 1 && p == levels[L][i] && nodes[p].key == Str(k)
      modifies this`nodes, this`levels
      ensures ShapedWith(Hole(Str(k), L))
      ensures levels == old(Removed(levels, L, i))
      ensures forall L', s :: Holds(nodes, levels, L', s) <==> Holds(old(nodes), old(levels), L', s) && (L' != L || s != k)
      ensures MapOf(nodes, levels[0]) ==
        if L == 0 then old(MapOf(nodes, levels[0])) - {k} else old(MapOf(nodes, levels[0]))
      ensures |nodes| == old(|nodes|) && nodes[p] == old(nodes[p]).(left := None, right := None)
      ensures forall n :: 0 <= n < |nodes| && lvl[n] != L ==> nodes[n] == old(nodes[n])
      ensures Untouched(old(nodes), old(levels), nodes)
    {
      ghost var nodes0, levels0 := nodes, levels;
      Neighbours(nodes, lvl, levels, if L == 0 then NoHole else Hole(Str(k), L - 1), L, i);
      var l, r := nodes[p].left.value, nodes[p].right.value;
      nodes := nodes[l := nodes[l].(right := Some(r))];
      nodes := nodes[r := nodes[r].(left := Some(l))];
      nodes := nodes[p := nodes[p].(right := None)];
      nodes := nodes[p := nodes[p].(left := None)];
      levels := Removed(levels0, L, i);
      RemovedLevels(levels0, L, i);
      UnlinkStep(nodes0, lvl, levels0, L, i, Str(k), nodes, levels);
    }

    /**
     * The first loop of `remove`: unlinks the level-0 node p0 of k, then
     * follows `up` and unlinks each node above it. It ends on the top of the
     * removed tower, listed from the bottom in `tower`.
     */
    method UnlinkTower(k: JString, p0: nat, ghost i0: nat) returns (p: nat, ghost tower: seq<nat>)
      requires Valid() && i0 < |levels[0]| && p0 == levels[0][i0] && nodes[p0].key == Str(k)
      modifies this`nodes, this`levels
      ensures Shaped() && |levels| == old(|levels|) && |levels[0]| == old(|levels[0]|) - 1
      ensures MapOf(nodes, levels[0]) == old(Contents()) - {k}
      ensures forall L, s :: OnLevel(L, s) <==> old(OnLevel(L, s)) && s != k
      ensures TowerLinks(nodes, lvl, tower, k) && p == tower[|tower| - 1] && nodes[p].up == None
      ensures forall j :: 0 <= j < |tower| ==> OffLevels(levels, tower[j])
      ensures Unlinking(old(nodes), old(levels), nodes, levels, tower)
    {
      ghost var nodes0, levels0 := nodes, levels;
      InnerAt(nodes, lvl, levels, NoHole, 0, i0);
      p := p0;
      Unlink(p, 0, i0, k);
      ClimbStart(nodes0, lvl, levels0, i0, k, nodes, levels);
      tower := [p];
      ghost var m: nat := 0;
      while nodes[p].up != None
        invariant ShapedWith(Hole(Str(k), m)) && Climbing(nodes0, levels0, nodes, lvl, levels, tower, m, k)
        invariant tower[m] == p
        decreases |levels| - m
      {
        var w := nodes[p].up.value;
        ghost var iw :| 0 <= iw < |levels[m + 1]| && levels[m + 1][iw] == w;
        InnerAt(nodes, lvl, levels, Hole(Str(k), m), m + 1, iw);
        ghost var nodes1, levels1 := nodes, levels;
        p := w;
        Unlink(p, m + 1, iw, k);
        ClimbStep(nodes0, levels0, nodes1, lvl, levels1, tower, m, k, iw, nodes, levels);
        tower := tower + [p];
        m := m + 1;
      }
      TowerDone(nodes, lvl, levels, tower, m, k);
    }

    /**
     * The second loop of `remove`: from the top of the removed tower down,
     * nulls each `down` link and the `up` link that answers it, leaving
     * every node of the tower detached.
     */
    method ClearTower(p0: nat, ghost tower: seq<nat>, ghost k: JString)
      requires Shaped() && TowerLinks(nodes, lvl, tower, k) && p0 == tower[|tower| - 1] && nodes[p0].up == None
      requires forall j :: 0 <= j < |tower| ==> OffLevels(levels, tower[j])
      modifies this`nodes
      ensures Shaped() && |nodes| == old(|nodes|)
      ensures forall j :: 0 <= j < |tower| ==> Detached(nodes[tower[j]])
      ensures forall n :: 0 <= n < |nodes| && n !in tower ==> nodes[n] == old(nodes[n])
      ensures forall L, s :: OnLevel(L, s) <==> old(OnLevel(L, s))
      ensures MapOf(nodes, levels[0]) == old(MapOf(nodes, levels[0]))
    {
      ghost var nodes0 := nodes;
      ClearingStart(nodes, lvl, levels, tower, k);
      var p := p0;
      ghost var j: nat := |tower| - 1;
      while nodes[p].down != None
        invariant Inv(nodes, lvl, levels, NoHole) && Clearing(nodes0, nodes, lvl, levels, tower, j) && p == tower[j]
        decreases j
      {
        var temp := nodes[p].down.value;
        assert 0 < j && temp == tower[j - 1];
        ghost var nodes1 := nodes;
        nodes := nodes[p := nodes[p].(down := None)];
        nodes := nodes[temp := nodes[temp].(up := None)];
        ClearingStep(nodes0, nodes1, lvl, levels, tower, j, nodes);
        p := temp;
        j := j - 1;
      }
      ClearingDone(nodes0, nodes, lvl, levels, tower, j);
    }

    /**
     * The third loop of `remove`: while the top level holds only its two
     * sentinels and is not level 0, drops it.
     */
    method TrimTop()
      requires Shaped()
      modifies this`nodes, this`levels, this`head, this`tail, this`height
      ensures Shaped() && TopOk(levels)
      ensures Trimming(old(nodes), old(levels), nodes, levels)
    {
      ghost var nodes0, levels0 := nodes, levels;
      TopRight(nodes, lvl, levels);
      TrimmingStart(nodes, lvl, levels);
      while nodes[nodes[head].right.value].key == nodes[tail].key && height > 0
        invariant Shaped() && TopLink(nodes, levels)
        invariant Trimming(nodes0, levels0, nodes, levels)
        decreases height
      {
        ghost var nodes1, levels1 := nodes, levels;
        DropTop();
        TrimmingTrans(nodes0, levels0, nodes1, levels1, nodes, levels);
      }
    }

    /**
     * One round of the third loop: the empty top level's sentinels lose
     * their links and those of the level below become `head` and `tail`.
     */
    method DropTop()
      requires Shaped() && height > 0 && |levels[|levels| - 1]| == 2
      modifies this`nodes, this`levels, this`head, this`tail, this`height
      ensures Shaped() && TopLink(nodes, levels) && |levels| == old(|levels|) - 1
      ensures Detached(nodes[old(head)]) && Detached(nodes[old(tail)])
      ensures Trimming(old(nodes), old(levels), nodes, levels)
    {
      SentinelsDown(nodes, lvl, levels, height);
      var p1, p2 := nodes[head].down.value, nodes[tail].down.value;
      ghost var nodes0, levels0 := nodes, levels;
      var ns := nodes;
      ns := ns[head := ns[head].(right := None)];
      ns := ns[head := ns[head].(down := None)];
      ns := ns[tail := ns[tail].(left := None)];
      ns := ns[tail := ns[tail].(down := None)];
      ns := ns[p1 := ns[p1].(up := None)];
      ns := ns[p2 := ns[p2].(up := None)];
      nodes := ns;
      head := p1;
      tail := p2;
      height := height - 1;
      levels := levels0[..|levels0| - 1];
      DropOk(nodes0, lvl, levels0, nodes, levels);
      TopRight(nodes, lvl, levels);
    }
  }
}
