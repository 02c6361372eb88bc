/**
 * Java strings as sequences of UTF-16 code units, and `String.compareTo`,
 * which the skip list uses to order its ordinary keys.
 */
module JavaStrings {

  /** One UTF-16 code unit, the element type of a Java `String`. */
  newtype CodeUnit = x: int | 0 <= x < 0x1_0000

  type JString = seq<CodeUnit>

  /**
   * `a.compareTo(b)`: the difference of the first pair of code units that
   * differ, or else the difference of the lengths.
   */
  function CompareTo(a: JString, b: JString): int
    decreases |a|
  {
    if |a| == 0 || |b| == 0 then |a| - |b|
    else if a[0] != b[0] then a[0] as int - b[0] as int
    else CompareTo(a[1..], b[1..])
  }

  /** `compareTo` is zero exactly on equal strings. */
  lemma {:induction false} CompareToZero(a: JString, b: JString)
    ensures CompareTo(a, b) == 0 <==> a == b
    decreases |a|
  {
    if |a| == 0 || |b| == 0 {
    } else if a[0] != b[0] {
    } else {
      CompareToZero(a[1..], b[1..]);
      assert a == [a[0]] + a[1..] && b == [b[0]] + b[1..];
    }
  }

  /** Swapping the operands negates the result. */
  lemma {:induction false} CompareToAntisymmetric(a: JString, b: JString)
    ensures CompareTo(a, b) == -CompareTo(b, a)
    decreases |a|
  {
    if |a| == 0 || |b| == 0 {
    } else if a[0] != b[0] {
    } else {
      CompareToAntisymmetric(a[1..], b[1..]);
    }
  }

  /** The order `compareTo(...) < 0` is transitive. */
  lemma {:induction false} CompareToTransitive(a: JString, b: JString, c: JString)
    requires CompareTo(a, b) < 0 && CompareTo(b, c) < 0
    ensures CompareTo(a, c) < 0
    decreases |a|
  {
    if |a| == 0 || |b| == 0 || |c| == 0 {
    } else if a[0] != b[0] || b[0] != c[0] {
    } else {
      CompareToTransitive(a[1..], b[1..], c[1..]);
    }
  }
}
