/**
 * The data state held by the `Visualizer` class of src/index.js and the
 * primitive mutators the controller drives it with.  Rendering is not
 * modelled: only the array of cells, the active length and the set of
 * highlighted (focused) indexes.
 */
module Visualizer {

  /** One array cell: its displayed value and the stable key given to it when
      the data was initialised (used to track a moving value across swaps). */
  datatype Element = Element(val: int, key: int)

  /** `_data`, `activeLength` and the keys of `_focusedIndexes`. */
  datatype Visual = Visual(data: seq<Element>, activeLength: int, focused: set<int>)

  /** The values shown in the cells, slot by slot. */
  function Values(d: seq<Element>): seq<int>
  {
    seq(|d|, i requires 0 <= i < |d| => d[i].val)
  }

  /** The keys are exactly a permutation of 0 .. |d|-1: each lies in range
      and no two cells share one. */
  predicate KeysArePermutation(d: seq<Element>)
  {
    && (forall i :: 0 <= i < |d| ==> 0 <= d[i].key < |d|)
    && (forall i, j :: 0 <= i < j < |d| ==> d[i].key != d[j].key)
  }

  /** The cells `setInitialData` builds: value `values[i]`, key `i`. */
  function Fresh(values: seq<int>): (d: seq<Element>)
    ensures |d| == |values|
    ensures Values(d) == values
    ensures KeysArePermutation(d)
    ensures forall i :: 0 <= i < |d| ==> d[i].key == i
  {
    seq(|values|, i requires 0 <= i < |values| => Element(values[i], i))
  }

  /** `setInitialData`: replaces the cells by fresh ones and makes all of them
      active; the focus set is not touched. */
  function SetInitialData(v: Visual, values: seq<int>): (r: Visual)
    ensures r.data == Fresh(values)
    ensures Values(r.data) == values
    ensures KeysArePermutation(r.data)
    ensures r.activeLength == |r.data|
    ensures r.focused == v.focused
  {
    v.(data := Fresh(values), activeLength := |values|)
  }

  /** `clearFocus`: nothing is highlighted afterwards, nothing else changes. */
  function ClearFocus(v: Visual): (r: Visual)
    ensures r.focused == {}
    ensures r.data == v.data && r.activeLength == v.activeLength
  {
    v.(focused := {})
  }

  /** `focus(indexes)`: adds every listed index to the focus set, without
      any range check. */
  function Focus(v: Visual, indexes: seq<int>): (r: Visual)
    ensures forall i :: i in r.focused <==> i in v.focused || i in indexes
    ensures r.data == v.data && r.activeLength == v.activeLength
  {
    v.(focused := v.focused + set i | i in indexes)
  }

  /** `swap(index1, index2)`: the two cells trade places, keys travelling
      with their values. */
  function Swap(v: Visual, a: int, b: int): (r: Visual)
    requires 0 <= a < |v.data| && 0 <= b < |v.data|
    ensures |r.data| == |v.data|
    ensures r.data[a] == v.data[b] && r.data[b] == v.data[a]
    ensures forall i :: 0 <= i < |v.data| && i != a && i != b ==> r.data[i] == v.data[i]
    ensures r.activeLength == v.activeLength && r.focused == v.focused
  {
    var elem1 := v.data[a];
    v.(data := v.data[a := v.data[b]][b := elem1])
  }

  /** `setActiveLength(val)`: stores the new length as given, unchecked. */
  function SetActiveLength(v: Visual, n: int): (r: Visual)
    ensures r.activeLength == n
    ensures r.data == v.data && r.focused == v.focused
  {
    v.(activeLength := n)
  }

  /** Swapping the same two slots twice gives back the original state. */
  lemma SwapTwiceRestores(v: Visual, a: int, b: int)
    requires 0 <= a < |v.data| && 0 <= b < |v.data|
    ensures Swap(Swap(v, a, b), a, b) == v
  {
    var w := Swap(Swap(v, a, b), a, b);
    assert w.data == v.data;
  }

  /** A swap keeps the keys a permutation of 0 .. n-1 and the values a
      rearrangement of the old ones. */
  lemma SwapPermutes(v: Visual, a: int, b: int)
    requires 0 <= a < |v.data| && 0 <= b < |v.data|
    ensures KeysArePermutation(v.data) ==> KeysArePermutation(Swap(v, a, b).data)
    ensures multiset(Values(Swap(v, a, b).data)) == multiset(Values(v.data))
  {
    var d := v.data;
    var e := Swap(v, a, b).data;
    if KeysArePermutation(d) {
      forall i, j | 0 <= i < j < |e|
        ensures e[i].key != e[j].key
      {
        var i' := if i == a then b else if i == b then a else i;
        var j' := if j == a then b else if j == b then a else j;
        assert e[i] == d[i'] && e[j] == d[j'];
        assert i' != j';
        if i' > j' {
          assert d[j'].key != d[i'].key;
        }
      }
    }
    assert Values(e) == Values(d)[a := d[b].val][b := d[a].val];
  }
}
