/**
 * Insertion-ordered de-duplication. A JavaScript `Set` and the (non-integer-like)
 * string keys of a plain object both remember the order in which each distinct
 * value was first inserted; `Dedup` is that order, used by the traffic pivot
 * (`Object.values(byMinute)`) and by the chart's series keys (`new Set(...)`).
 */
module InsertionOrder {

  predicate Distinct<T(==)>(s: seq<T>)
  {
    forall i, j :: 0 <= i < j < |s| ==> s[i] != s[j]
  }

  /** The position of the first occurrence of `x` in `s`. */
  function FirstIndex<T(==)>(s: seq<T>, x: T): (k: nat)
    requires x in s
    ensures k < |s| && s[k] == x
    ensures x !in s[..k]
  {
    var init := s[..|s| - 1];
    if x in init then
      var k := FirstIndex(init, x);
      assert s[..k] == init[..k];
      k
    else
      assert s == init + [s[|s| - 1]];
      |s| - 1
  }

  /**
   * The distinct elements of `s`, each once, in the order of their first
   * occurrence in `s`.
   */
  function Dedup<T(==,!new)>(s: seq<T>): (r: seq<T>)
    ensures Distinct(r)
    ensures forall x :: x in r <==> x in s
    ensures forall i, j :: 0 <= i < j < |r| ==> FirstIndex(s, r[i]) < FirstIndex(s, r[j])
  {
    if s == [] then []
    else
      var init, last := s[..|s| - 1], s[|s| - 1];
      assert s == init + [last];
      var d := Dedup(init);
      if last in d then d else d + [last]
  }

}
