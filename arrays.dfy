/**
 Model of the two array helpers `insert` and `checkSubset` of
 src/logic/helper.ts, as functions on sequences.
 */
module ArrayHelpers {

  /**
   The position `Array.prototype.slice` makes of an integer argument on an array
   of length `n`: a negative argument counts back from the end, and the result
   is clamped to `[0, n]`.
   */
  function SliceIndex(index: int, n: nat): (k: nat)
    ensures k <= n
    ensures 0 <= index <= n ==> k == index
  {
    if index < 0 then
      (if n + index < 0 then 0 else n + index)
    else if index > n then n
    else index
  }

  /**
   `insert(parentArray, obj, index)`: `parentArray.slice(0, index)`, then
   `obj`, then `parentArray.slice(index)`. Both slices use the same position, so
   `obj` lands at `SliceIndex(index, |parent|)` and the rest is kept in order.
   */
  function Insert<T>(parent: seq<T>, obj: T, index: int): (r: seq<T>)
    ensures |r| == |parent| + 1
    ensures var k := SliceIndex(index, |parent|);
      r[k] == obj && r[..k] == parent[..k] && r[k + 1..] == parent[k..]
    ensures multiset(r) == multiset(parent) + multiset{obj}
  {
    var k := SliceIndex(index, |parent|);
    assert parent == parent[..k] + parent[k..];
    parent[..k] + [obj] + parent[k..]
  }

  /** Removing the inserted element again gives back the original array. */
  lemma InsertThenRemove<T>(parent: seq<T>, obj: T, index: int)
    ensures var k := SliceIndex(index, |parent|);
      var r := Insert(parent, obj, index);
      r[..k] + r[k + 1..] == parent
  {
    var k := SliceIndex(index, |parent|);
    assert parent == parent[..k] + parent[k..];
  }

  /** `parentArray.includes(e)`: a linear search from the front. */
  function Includes<T(==)>(parent: seq<T>, e: T): (b: bool)
    ensures b <==> exists i :: 0 <= i < |parent| && parent[i] == e
  {
    if parent == [] then false
    else parent[0] == e || Includes(parent[1..], e)
  }

  /**
   `checkSubset(parentArray, subsetArray)`: `subsetArray.every(e => parentArray.includes(e))`,
   evaluated from the front and stopping at the first element that is missing.
   */
  function CheckSubset<T(==)>(parent: seq<T>, subset: seq<T>): (b: bool)
    ensures b <==> forall j :: 0 <= j < |subset| ==> subset[j] in parent
  {
    if subset == [] then true
    else Includes(parent, subset[0]) && CheckSubset(parent, subset[1..])
  }

  /** The elements of a sequence, forgetting order and multiplicity. */
  function Elements<T>(s: seq<T>): set<T> {
    set x | x in s
  }

  /**
   `checkSubset` is set inclusion: it holds for an empty subset, and neither
   order nor multiplicity on either side matters.
   */
  lemma CheckSubsetIsInclusion<T>(parent: seq<T>, subset: seq<T>)
    ensures CheckSubset(parent, subset) <==> Elements(subset) <= Elements(parent)
  {
    if !CheckSubset(parent, subset) {
      var j :| 0 <= j < |subset| && subset[j] !in parent;
      assert subset[j] in Elements(subset);
    }
  }

  /** Only the elements matter: sequences with the same elements give the same answer. */
  lemma CheckSubsetIgnoresMultiplicity<T>(parent: seq<T>, parent': seq<T>, subset: seq<T>, subset': seq<T>)
    requires Elements(parent) == Elements(parent') && Elements(subset) == Elements(subset')
    ensures CheckSubset(parent, subset) == CheckSubset(parent', subset')
  {
    CheckSubsetIsInclusion(parent, subset);
    CheckSubsetIsInclusion(parent', subset');
  }

  /** Every array is a subset of itself, and subsets compose. */
  lemma CheckSubsetTransitive<T>(a: seq<T>, b: seq<T>, c: seq<T>)
    requires CheckSubset(a, b) && CheckSubset(b, c)
    ensures CheckSubset(a, c) && CheckSubset(a, a)
  {
    CheckSubsetIsInclusion(a, b);
    CheckSubsetIsInclusion(b, c);
    CheckSubsetIsInclusion(a, c);
    CheckSubsetIsInclusion(a, a);
  }
}
