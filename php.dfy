/**
 * The few PHP runtime behaviours the path-alias index relies on: a value that
 * may be missing, the truthiness of a string, `array_search`, `unset` on a
 * list and the "no duplicates" property of a list.
 */
module Php {

  /** A value that may be missing: `hget` answers `false` for a missing field. */
  datatype Option<+T> = None | Some(value: T)

  /**
   * PHP truthiness of a string value that may be missing (`if ($value)`,
   * `!empty($value)`): missing, `""` and `"0"` are falsy, every other string
   * is truthy.
   */
  predicate Truthy(v: Option<string>) {
    v.Some? && v.value != "" && v.value != "0"
  }

  /** No element appears twice in `xs`. */
  predicate NoDuplicates(xs: seq<string>) {
    forall i, j :: 0 <= i < j < |xs| ==> xs[i] != xs[j]
  }

  /**
   * `array_search($x, $xs)` on a list: the position of the first element equal
   * to `x`, or nothing when `x` is not an element (comparison is strict here).
   */
  function ArraySearch(xs: seq<string>, x: string): (r: Option<nat>)
    ensures r.None? <==> x !in xs
    ensures r.Some? ==> r.value < |xs| && xs[r.value] == x
    ensures r.Some? ==> forall j :: 0 <= j < r.value ==> xs[j] != x
  {
    if |xs| == 0 then None
    else if xs[0] == x then Some(0)
    else match ArraySearch(xs[1..], x)
      case None => None
      case Some(i) => Some(i + 1)
  }

  /**
   * `unset($xs[$i])` followed by `implode`, which sees the surviving elements
   * in their original order.
   */
  function Unset(xs: seq<string>, i: nat): (r: seq<string>)
    requires i < |xs|
    ensures |r| == |xs| - 1
    ensures forall j :: 0 <= j < i ==> r[j] == xs[j]
    ensures forall j :: i <= j < |r| ==> r[j] == xs[j + 1]
  {
    xs[..i] + xs[i + 1..]
  }

  /** Removing one position keeps a list free of duplicates. */
  lemma UnsetKeepsNoDuplicates(xs: seq<string>, i: nat)
    requires i < |xs| && NoDuplicates(xs)
    ensures NoDuplicates(Unset(xs, i))
  {
    var r := Unset(xs, i);
    forall a, b | 0 <= a < b < |r| ensures r[a] != r[b] {
      var a' := if a < i then a else a + 1;
      var b' := if b < i then b else b + 1;
      assert r[a] == xs[a'] && r[b] == xs[b'] && a' < b';
    }
  }

  /**
   * In a list without duplicates, removing the position of `x` removes
   * exactly `x` and keeps every other element.
   */
  lemma UnsetMembership(xs: seq<string>, i: nat, e: string)
    requires i < |xs| && NoDuplicates(xs)
    ensures e in Unset(xs, i) <==> e in xs && e != xs[i]
  {
    var r := Unset(xs, i);
    if e in r {
      var k :| 0 <= k < |r| && r[k] == e;
      var k' := if k < i then k else k + 1;
      assert xs[k'] == e && k' != i;
    }
    if e in xs && e != xs[i] {
      var k :| 0 <= k < |xs| && xs[k] == e;
      assert k != i;
      if k < i { assert r[k] == e; } else { assert r[k - 1] == e; }
    }
  }
}
