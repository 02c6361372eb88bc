# Skip list map, modelled in Dafny

A model of the skip list in `src/skiplist/`. It is an ordered map from Java
`String` keys to values. The map is kept as a stack of sorted, doubly linked
levels of four-way linked nodes (`SkipListEntry`). Level 0 holds every key and
its value. Each higher level holds a subset of the keys below it, with no
values. Every level starts with a `negInf` sentinel and ends with a `posInf`
sentinel, and `head` and `tail` are the sentinels of the top level.

How the model is built:

- **Entries (`skip_list_entry.dfy`).** An entry is a value of the datatype
  `Entry`. A key is `NegInf`, `PosInf` or `Str(s)`, where `s` is a sequence of
  UTF-16 code units. The sentinels are told apart by a tag; the source tells
  them apart by reference.
- **The list (`skip_list.dfy`).** The class `SkipList` keeps all its entries
  in an arena `nodes: seq<Entry<V>>`. A link is the arena index of the entry
  it points to, and `None` is `null`. Every field write of the source
  (`p.left.right = p.right`, `q.up = e`, ...) is one rewrite of an arena slot.
  `head`, `tail`, `size` and `height` are class fields, as in the source.
- **Ghost picture.** Two ghost fields describe the arena:
  - `levels`: the node indices of each level, left to right;
  - `lvl`: the level of every node.
- **The invariant (`Valid`, defined in `skip_list_shape.dfy`).** It ties the
  links to the ghost picture:
  - each level runs from `negInf` to `posInf` and is strictly ascending under
    Java's `compareTo`;
  - `left`/`right` follow the order of the level;
  - `down` leads to the same key one level lower, and is null only on level 0;
  - `up` leads to the same key one level higher when that level holds it, and
    is null otherwise;
  - each level's keys are a subset of the keys below it;
  - only level-0 ordinary nodes carry a value;
  - `size` counts the ordinary nodes of level 0;
  - the top level holds an ordinary key unless it is level 0.
- **The abstract map.** `Contents()` is the map from the keys of level 0 to
  their values. Each public method is proved against it. `OnLevel(L, s)`
  says which level holds which key.
- **Proof modules.** Each link rewrite of `put` and `remove` is proved to
  keep the invariant by lemmas over arena values:
  - `skip_list_insert.dfy` and `skip_list_levels.dfy` for splicing and for
    stacking a new level;
  - `skip_list_remove.dfy` and `skip_list_steps.dfy` for unlinking, clearing a
    tower and dropping an empty top level.
- **`compareTo` (`java_strings.dfy`).** Modelled as Java defines it: the
  difference of the first differing code units, otherwise the difference of
  the lengths.
- **Coin tosses.** The random test `flag.nextDouble() < 0.5` is replaced by a
  caller-supplied `coins: seq<bool>`. The tower grows while the next coin is
  `true`; running out of coins ends the growth.

## Model

| member | source | states |
|---|---|---|
| Entries.NewEntry | src/skiplist/SkipListEntry.java:15-19 | the new entry holds the given key and value and all four links are null |
| Entries.SetValue | src/skiplist/SkipListEntry.java:29-33 | returns the previous value; the entry then holds the new value, and its key and links are unchanged |
| Entries.SetValueUndo | src/skiplist/SkipListEntry.java:29-33 | setting the returned old value back restores the entry exactly; setting the same value again changes nothing |
| Entries.Equals | src/skiplist/SkipListEntry.java:35-44 | true exactly when the keys are the same sentinel or the same key and both values are equal; links are not compared |
| Entries.EqualsSymmetric | src/skiplist/SkipListEntry.java:35-44 | on entries that hold a value, `equals` is reflexive and symmetric |
| Entries.ToString | src/skiplist/SkipListEntry.java:46-48 | the text is "(" then the key's text, "," then the value's text ("null" for no value), then ")" |
| Entries.NegInfCollision | src/skiplist/SkipList.java:91 | the as-written exact-key test accepts a caller key spelled "-oo" against the `negInf` sentinel, which is not an ordinary key |
| Entries.KeyMatchesAgreesOnOrdinaryKeys | src/skiplist/SkipList.java:116 | the corrected test agrees with `k.equals(p.getKey())` on every ordinary key, and never matches a sentinel |
| JavaStrings.CompareToZero | src/skiplist/SkipList.java:71 | `a.compareTo(b)` is zero exactly when the strings are equal |
| JavaStrings.CompareToAntisymmetric | src/skiplist/SkipList.java:71 | swapping the operands of `compareTo` negates the result |
| JavaStrings.CompareToTransitive | src/skiplist/SkipList.java:71 | `compareTo(...) < 0` is transitive, so levels ordered by it are strictly ascending chains |
| SkipListShape.KeyLtTotal | src/skiplist/SkipList.java:71 | the key order (`negInf` first, `posInf` last, `compareTo` between) is a strict total order |
| SkipListShape.CompareToIsKeyLe | src/skiplist/SkipList.java:71 | the loop test `p.right.key.compareTo(k) <= 0` on an ordinary key means that key is at most k |
| SkipListShape.StepRight | src/skiplist/SkipList.java:71-72 | from a node whose key is at most k, `right` leads to the next node of the same level, never back to `negInf` |
| SkipListShape.StepDown | src/skiplist/SkipList.java:75-79 | `down` is null exactly on level 0, and otherwise leads to the same key one level lower |
| SkipListShape.StepLeft | src/skiplist/SkipList.java:153-154 | below the top level, a node without an `up` link is not the left sentinel, so `left` leads to the previous node of its level |
| SkipListShape.KeysBelow | src/skiplist/SkipList.java:164-170 | every key of any level is also a key of level 0: each tower stands on a level-0 node |
| SkipListShape.NeighboursDecide | src/skiplist/SkipList.java:82 | when the found node's key is at most k and its right neighbour's key is above k, k is in the level exactly when it is the found node's key |
| SkipListShape.LevelDistinct | src/skiplist/SkipList.java:200-210 | the nodes of one level have pairwise distinct keys and are tagged with that level |
| SkipListContents.MapOfHas | src/skiplist/SkipList.java:91-92 | on an ascending level, the key of an ordinary node maps to that node's value |
| SkipListContents.MapOfLacks | src/skiplist/SkipList.java:93-94 | a key held by no node of level 0 is absent from the map |
| SkipListContents.MapOfInsert | src/skiplist/SkipList.java:122-126 | splicing a node with a fresh key and a value into level 0 adds exactly that pair to the map |
| SkipListContents.MapOfUpdate | src/skiplist/SkipList.java:117-118 | storing a new value in the node of an existing key rebinds that key and nothing else |
| SkipListContents.MapOfRemove | src/skiplist/SkipList.java:200-203 | unlinking the level-0 node of a key removes exactly that key from the map |
| SkipListContents.MapOfCount | src/skiplist/SkipList.java:40-42 | on an ascending level the map has one entry per node that holds a key/value pair |
| SkipLists.SkipList.CountEntries | src/skiplist/SkipList.java:177 | the `size` field equals the number of keys in the map |
| SkipLists.SkipList.constructor | src/skiplist/SkipList.java:21-31 | the new list is valid and empty, with size 0 and height 0; `head` and `tail` are `negInf`/`posInf` sentinels without values, linked to each other |
| SkipLists.SkipList.Size | src/skiplist/SkipList.java:40-42 | returns the number of keys in the map |
| SkipLists.SkipList.IsEmpty | src/skiplist/SkipList.java:51-53 | true exactly when the map is empty |
| SkipLists.SkipList.FindEntry | src/skiplist/SkipList.java:64-82 | ends on a level-0 node (`down` null) whose key is at most k (possibly the head sentinel); its `right` neighbour's key is greater than k |
| SkipLists.SkipList.SearchRight | src/skiplist/SkipList.java:71-73 | the walk right along one level ends on the last node whose key is at most k, and `right` links it to a node whose key is greater |
| SkipLists.SkipList.Get | src/skiplist/SkipList.java:88-96 | returns the value bound to k, or none when k is unbound; changes nothing |
| SkipLists.SkipList.Put | src/skiplist/SkipList.java:108-182 | keeps the invariant; binds k to v and returns the previous value (none if k was new); `size` grows by one exactly for a new key; no other key changes levels; a new key ends up on exactly levels 0 .. the number of leading true coins; `height` becomes that number when it exceeds the old height, and otherwise stays |
| SkipLists.SkipList.Rebind | src/skiplist/SkipList.java:114-120 | for a present key: only that node's value changes, so links, levels, `head`, `tail`, `size` and `height` stay; the old value is returned |
| SkipLists.SkipList.InsertNew | src/skiplist/SkipList.java:122-177 | for an absent key: the map gains k bound to v, `size` grows by one, and k's tower is as tall as the run of leading true coins |
| SkipLists.SkipList.BuildTower | src/skiplist/SkipList.java:128-175 | each true coin adds k to exactly one more level; the map, `size` and every other key's levels stay; `height` grows only when the tower passes it |
| SkipLists.SkipList.RaiseTower | src/skiplist/SkipList.java:131-173 | one loop iteration: k moves up exactly one level, a new level is stacked only if the tower had reached the top, and no other key moves |
| SkipLists.SkipList.Grow | src/skiplist/SkipList.java:133-151 | a new top level holding exactly two fresh sentinels, linked down to the old `head`/`tail`, which are linked up to them; `height` grows by one; nodes other than the old sentinels, the keys and the map are unchanged |
| SkipLists.SkipList.Climb | src/skiplist/SkipList.java:153-156 | walking left to the first node with an `up` link and then up ends on the node of the next level after which k belongs: its key is below k, and its successor's key is above k |
| SkipLists.SkipList.Splice | src/skiplist/SkipList.java:122-126 | a new node of k goes between two neighbours whose keys are below and above k; k is added to that level only; on level 0 the map gains the pair, and above level 0 the node links down to the tower and is linked up from it |
| SkipListInsert.TowerSlot | src/skiplist/SkipList.java:153-169 | the node the climb reaches lies just before k's position on the level above, so the splice there keeps that level ascending |
| SkipListSteps.SpliceOk | src/skiplist/SkipList.java:164-170 | splicing a node of a new key between neighbours that enclose it keeps the invariant and adds that key to that one level |
| SkipListSteps.GrowOk | src/skiplist/SkipList.java:136-150 | stacking two linked sentinels above `head`/`tail` keeps the invariant, adds an empty level and changes no level's keys and no map entry |
| SkipListSteps.NewKeyAbsent | src/skiplist/SkipList.java:193-197 | a key strictly between two neighbours of level 0 is on no level and not in the map |
| SkipListSteps.KeyPresent | src/skiplist/SkipList.java:195 | an ordinary key found on level 0 is in the map |
| SkipLists.SkipList.Remove | src/skiplist/SkipList.java:192-247 | keeps the invariant; the map loses k; `size` drops by one exactly when k was present; k leaves every level and no other key moves; every node that leaves the levels (k's tower and the sentinels of dropped levels) ends with all four links null; nodes that were off the levels are untouched; an absent key changes no node, level, `head`, `tail` or `height` |
| SkipLists.SkipList.RemoveTower | src/skiplist/SkipList.java:199-241 | the three loops for a present key: k leaves the map and every level, level 0 loses one node, and the nodes that leave the levels end detached while nodes already off them are untouched |
| SkipLists.SkipList.Unlink | src/skiplist/SkipList.java:200-203 | the node of k on one level is taken out between its neighbours, and its own `left`/`right` become null; only nodes of that level change, none that is off the levels, and k leaves it |
| SkipLists.SkipList.UnlinkTower | src/skiplist/SkipList.java:199-211 | after the climb k is on no level, the map has lost k, the levels keep their number, and the unlinked nodes form k's tower, which no level holds; the nodes that left the levels are exactly the tower's, and nodes already off the levels are untouched |
| SkipLists.SkipList.ClearTower | src/skiplist/SkipList.java:213-219 | every node of the removed tower ends detached (all four links null); no other node changes, and the levels and the map stay |
| SkipLists.SkipList.TrimTop | src/skiplist/SkipList.java:225-241 | top levels that held only their two sentinels are dropped until the top holds a key or is level 0; the remaining levels, which key each holds and the map stay; the dropped sentinels end detached and nodes off the levels are untouched |
| SkipLists.SkipList.DropTop | src/skiplist/SkipList.java:226-240 | the empty top level is dropped, its two sentinels end detached, nothing else but the `up` links of the two sentinels below changes, and the level below becomes the top with `head`/`tail` as its sentinels |
| SkipListSteps.OffRemoved | src/skiplist/SkipList.java:200-203 | unlinking one node from a level takes exactly that node off the levels |
| SkipListSteps.UnlinkingStep | src/skiplist/SkipList.java:207-210 | each unlink of the climb adds its node to the tower of nodes that have left the levels, and leaves nodes off the levels untouched |
| SkipListSteps.ClimbStart | src/skiplist/SkipList.java:200-203 | unlinking k's level-0 node starts the climb: k has left level 0 and the map, and the tower is that one node |
| SkipListSteps.ClimbStep | src/skiplist/SkipList.java:205-211 | following `up` and unlinking the node there moves the climb one level up, extending k's tower by that node |
| SkipListSteps.TrimNodes | src/skiplist/SkipList.java:230-237 | dropping an empty top level writes only its two sentinels, which end detached, and the `up` links of the two below |
| SkipListSteps.DropOk | src/skiplist/SkipList.java:226-240 | dropping an empty top level keeps the invariant and is one round of the trimming loop |
| SkipListSteps.TrimmingTrans | src/skiplist/SkipList.java:225 | two rounds of the trimming loop compose into one: the loop's facts hold across all rounds |
| SkipListSteps.RemovedNodes | src/skiplist/SkipList.java:199-241 | after the three loops, the nodes that left the levels (the tower's and the dropped sentinels) are detached and nodes that were off the levels are as before |
| SkipListSteps.UnlinkStep | src/skiplist/SkipList.java:207-210 | unlinking the node of a key already gone from the levels below keeps the invariant; that key leaves that level only; on level 0 it leaves the map |
| SkipListSteps.TowerStep | src/skiplist/SkipList.java:205-211 | the node `up` leads to is the next node of k's tower, and its `up` link leads on to k one level higher, or is null when that level lacks k |
| SkipListSteps.TowerDone | src/skiplist/SkipList.java:205 | when the tower's top has a null `up`, the invariant holds again, k is on no level, and no level holds any node of the tower |
| SkipListSteps.ClearingStep | src/skiplist/SkipList.java:215-218 | nulling `p.down` and then `temp.up` keeps the invariant and detaches one more node of the tower |
| SkipListSteps.ClearingDone | src/skiplist/SkipList.java:214 | when the loop ends, every node of the tower is detached, and the levels and the map are as before |
| SkipListSteps.TopRight | src/skiplist/SkipList.java:225 | `head.right.key == tail.key` holds exactly when the top level holds no ordinary key |
| SkipListSteps.TrimStep | src/skiplist/SkipList.java:227-240 | dropping an empty top level keeps the invariant, which keys each level holds, and the map, and leaves its sentinels detached |
| SkipListRemove.DownOfUp | src/skiplist/SkipList.java:205-206 | the node `up` leads to points back `down` to where the climb came from: towers are linked both ways |
| SkipLists.LeadingTrue | src/skiplist/SkipList.java:131 | the number of times the tower-growth test passes before the first false coin |

## Left out

- The print methods `printHorizontal`, `getOneRow`, `printVertical` and `getOneColumn` (SkipList.java:256-341) are console output only. So are the `println`/`printHorizontal` calls inside `put` and `remove` (SkipList.java:179-180, 245-246).
- `java.util.Random` (SkipList.java:13, 30, 131) is replaced by the `coins` parameter. Probabilistic bounds on height are not stated.
- The `pos` field (SkipListEntry.java:8) is used only by the printers.
- `getKey` and `getValue` (SkipListEntry.java:21-27) are the datatype fields `key` and `value`. Reading a field of a datatype value changes nothing.
- Object identity: nodes are arena indices, not heap references. The sentinel strings are told apart from ordinary keys by a tag instead of by reference.
  - A caller could pass the very `posInf` string object as a key; that case is not modelled.
- Entries.Equals: requires the argument's value to be present. The source throws `NullPointerException` when it is null, and also when `o` is null; the `ClassCastException` branch (SkipListEntry.java:38-42) cannot arise between entries.
- Entries.Equals compares sentinel keys by tag and ordinary keys by their characters. The source compares key references with `==`, so two equal strings that are distinct objects compare unequal there.
- `null` as a value passed to `put` is not modelled: `V` values are never null, and `None` stands only for the value-less nodes.
- `size` and `height` are unbounded integers; the source's 32-bit `int` overflow is not modelled.
- Garbage collection is not modelled. `Remove` states that every node it takes off the levels ends with all four links null, which is what the source does to make them collectable.
- A null key is not modelled, because a key is a `JString` and is never null. In the source:
  - `get(null)` and `put(null, v)` throw `NullPointerException` (SkipList.java:91 and :116, or already at :71 when level 0 holds a key);
  - `remove(null)` throws at SkipList.java:71 when level 0 holds a key;
  - on an empty list, `remove(null)` returns without any change, because `"-oo".equals(null)` is false (SkipList.java:195).
- SkipLists.SkipList.Put: states the result through the invariant, the map and `OnLevel`, not through the exact arena. `Splice` and `Grow` state the links of each write.

## Findings

| source | as written | input that shows it | evidently intended | confidence | as-written member | corrected member |
|---|---|---|---|---|---|---|
| src/skiplist/SkipList.java:91, 116, 195 | the exact-key test `k.equals(p.getKey())` compares characters, so a caller key "-oo" equals the text of the `negInf` sentinel that `findEntry` returns when no ordinary key is at most "-oo" | on an empty list, `put("-oo", v)` stores v in the level-0 head sentinel and returns null without adding an entry, so `size()` stays 0 while `get("-oo")` returns v; `remove("-oo")` then reaches `p.left.right` with `p.left` null | "-oo" is an ordinary key like any other: the test must accept only a node holding that ordinary key, never a sentinel | not executed | Entries.NegInfCollision | Entries.KeyMatchesAgreesOnOrdinaryKeys |
