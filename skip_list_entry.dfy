/**
 * One node of the skip list (`SkipListEntry`): a key, a value and four links.
 *
 * Nodes live in an arena (a sequence of entries owned by the list), so a link
 * is the arena index of the node it refers to, and `None` is a null link.
 */
module Entries {
  import opened Wrappers
  import opened JavaStrings

  /**
   * A node key. The two sentinels are the shared strings `negInf` ("-oo")
   * and `posInf` ("+oo"), which the list tells apart from ordinary keys by
   * reference; a tag does the same job here.
   */
  datatype Key = NegInf | PosInf | Str(s: JString)

  /** "-oo", the text of the `negInf` sentinel string. */
  const NegInfText: JString := [45, 111, 111]
  /** "+oo", the text of the `posInf` sentinel string. */
  const PosInfText: JString := [43, 111, 111]
  /** "null", what string concatenation prints for a null reference. */
  const NullText: JString := [110, 117, 108, 108]

  /** The characters of the string object a key refers to. */
  function KeyText(k: Key): JString {
    match k
    case NegInf => NegInfText
    case PosInf => PosInfText
    case Str(s) => s
  }

  datatype Entry<V> = Entry(
    key: Key,
    value: Option<V>,
    up: Option<nat>,
    down: Option<nat>,
    left: Option<nat>,
    right: Option<nat>)

  /** A node is detached when all four of its links are null. */
  predicate Detached<V>(e: Entry<V>) {
    e.up == None && e.down == None && e.left == None && e.right == None
  }

  /** The constructor: the given key and value, no links. */
  function NewEntry<V>(k: Key, v: Option<V>): (e: Entry<V>)
    ensures e.key == k && e.value == v && Detached(e)
  {
    Entry(k, v, None, None, None, None)
  }

  /** `setValue`: the previous value, and the entry now holding `x`. */
  function SetValue<V>(e: Entry<V>, x: Option<V>): (r: (Option<V>, Entry<V>))
    ensures r.0 == e.value && r.1.value == x
    ensures r.1.key == e.key && r.1.up == e.up && r.1.down == e.down
    ensures r.1.left == e.left && r.1.right == e.right
  {
    (e.value, e.(value := x))
  }

  /** Setting the previous value back restores the entry exactly. */
  lemma SetValueUndo<V>(e: Entry<V>, x: Option<V>)
    ensures SetValue(SetValue(e, x).1, SetValue(e, x).0).1 == e
    ensures SetValue(SetValue(e, x).1, x) == (x, SetValue(e, x).1)
  {
  }

  /**
   * `equals`: same key and equal values; links are not compared. The argument's
   * value must be non-null (`entry.getValue().equals(value)`).
   */
  function Equals<V(==)>(e: Entry<V>, o: Entry<V>): (r: bool)
    requires o.value.Some?
    ensures r <==> e.key == o.key && e.value == o.value
    ensures r ==> e.value.Some?
  {
    o.key == e.key && e.value.Some? && o.value.value == e.value.value
  }

  /** `equals` is reflexive and symmetric on entries that hold a value. */
  lemma EqualsSymmetric<V>(e: Entry<V>, o: Entry<V>)
    requires e.value.Some? && o.value.Some?
    ensures Equals(e, e)
    ensures Equals(e, o) <==> Equals(o, e)
  {
  }

  /** The text of a value as string concatenation prints it. */
  function ValueText<V>(v: Option<V>, show: V -> JString): JString {
    match v
    case None => NullText
    case Some(x) => show(x)
  }

  /**
   * `toString`: "(" + key + "," + value + ")", where `show` is the value
   * type's own `toString`.
   */
  function ToString<V>(e: Entry<V>, show: V -> JString): (r: JString)
    ensures |r| == |KeyText(e.key)| + |ValueText(e.value, show)| + 3
    ensures r[0] == 40 && r[|r| - 1] == 41 && r[|KeyText(e.key)| + 1] == 44
    ensures r[1..|KeyText(e.key)| + 1] == KeyText(e.key)
    ensures r[|KeyText(e.key)| + 2..|r| - 1] == ValueText(e.value, show)
  {
    [40] + KeyText(e.key) + [44] + ValueText(e.value, show) + [41]
  }

  /**
   * The exact-key test `k.equals(p.getKey())` as written: it compares the
   * characters of `k` with those of the node's key string, sentinels included.
   */
  function JavaKeyEquals(k: JString, key: Key): bool {
    k == KeyText(key)
  }

  /**
   * A caller key spelled "-oo" passes the as-written test against the head
   * sentinel, although it is an ordinary key and the sentinel is not.
   */
  lemma NegInfCollision()
    ensures JavaKeyEquals(NegInfText, NegInf)
    ensures NegInf != Str(NegInfText)
  {
  }

  /** The corrected exact-key test: the node holds the ordinary key `k`. */
  predicate KeyMatches(k: JString, key: Key) {
    key == Str(k)
  }

  /** The corrected test agrees with the as-written one except on sentinels. */
  lemma KeyMatchesAgreesOnOrdinaryKeys(k: JString, key: Key)
    ensures KeyMatches(k, key) ==> JavaKeyEquals(k, key)
    ensures key.Str? ==> (KeyMatches(k, key) <==> JavaKeyEquals(k, key))
    ensures !KeyMatches(k, NegInf) && !KeyMatches(k, PosInf)
  {
  }
}
