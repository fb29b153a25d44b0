/**
 push_heap, pop_heap and sort_heap of the C++ standard library, which the ranking of
 completions is built on: the front is an element that no other comes after.
 `comp(a, b)` says that `a` comes before `b`.
 */
module Heap {
  /** A strict weak order: never both ways, and "not before" is transitive. */
  ghost predicate StrictWeak<T(!new)>(comp: (T, T) -> bool) {
    && (forall a, b :: comp(a, b) ==> !comp(b, a))
    && (forall a, b, c :: !comp(a, b) && !comp(b, c) ==> !comp(a, c))
  }

  function Parent(i: nat): (p: nat)
    requires i > 0
    ensures p < i
  {
    (i - 1) / 2
  }

  /** is_heap: no parent comes before its child. */
  ghost predicate IsHeap<T(!new)>(h: seq<T>, comp: (T, T) -> bool) {
    forall i :: 0 < i < |h| ==> !comp(h[Parent(i)], h[i])
  }

  /** The front comes before none. */
  lemma {:induction false} FrontIsLast<T(!new)>(h: seq<T>, comp: (T, T) -> bool, i: nat)
    requires StrictWeak(comp) && IsHeap(h, comp) && i < |h|
    ensures !comp(h[0], h[i])
  {
    if i > 0 {
      FrontIsLast(h, comp, Parent(i));
    }
  }

  function Swap<T>(h: seq<T>, i: nat, j: nat): (r: seq<T>)
    requires i < |h| && j < |h|
    ensures |r| == |h| && multiset(r) == multiset(h)
  {
    h[i := h[j]][j := h[i]]
  }

  // ---------- push_heap ----------

  /** A heap but for `i` and its parent; the children of `i` fit below its parent. */
  ghost predicate HeapExceptAbove<T(!new)>(h: seq<T>, comp: (T, T) -> bool, i: nat) {
    && (forall k :: 0 < k < |h| && k != i ==> !comp(h[Parent(k)], h[k]))
    && (forall k :: 0 < k < |h| && Parent(k) == i && i > 0 && i < |h| ==> !comp(h[Parent(i)], h[k]))
  }

  lemma SiftUpStep<T(!new)>(h: seq<T>, comp: (T, T) -> bool, i: nat)
    requires StrictWeak(comp) && 0 < i < |h| && HeapExceptAbove(h, comp, i) && comp(h[Parent(i)], h[i])
    ensures HeapExceptAbove(Swap(h, i, Parent(i)), comp, Parent(i))
  {
  }

  /** Moves the last element up to its place in the heap before it. */
  method PushHeap<T(!new)>(h: seq<T>, comp: (T, T) -> bool) returns (r: seq<T>)
    requires StrictWeak(comp) && h != [] && IsHeap(h[..|h| - 1], comp)
    ensures IsHeap(r, comp) && multiset(r) == multiset(h) && |r| == |h|
  {
    r := h;
    var i: nat := |h| - 1;
    assert forall k :: 0 <= k < i ==> h[..i][k] == h[k];
    while i > 0 && comp(r[Parent(i)], r[i])
      invariant i < |r| == |h| && multiset(r) == multiset(h) && HeapExceptAbove(r, comp, i)
    {
      SiftUpStep(r, comp, i);
      r := Swap(r, i, Parent(i));
      i := Parent(i);
    }
  }

  // ---------- pop_heap ----------

  /** A heap but for `i` and its children, which fit below the parent of `i`. */
  ghost predicate HeapExceptBelow<T(!new)>(h: seq<T>, comp: (T, T) -> bool, i: nat) {
    && (forall k :: 0 < k < |h| && Parent(k) != i ==> !comp(h[Parent(k)], h[k]))
    && (forall k :: 0 < k < |h| && Parent(k) == i && i > 0 && i < |h| ==> !comp(h[Parent(i)], h[k]))
  }

  /** The child that comes last, if any. */
  function LastChild<T>(h: seq<T>, comp: (T, T) -> bool, i: nat): (c: nat)
    requires 2 * i + 1 < |h|
    ensures i < c < |h| && Parent(c) == i
    ensures forall k :: 0 < k < |h| && Parent(k) == i ==> k == 2 * i + 1 || k == 2 * i + 2
    ensures 2 * i + 2 < |h| && c == 2 * i + 1 ==> !comp(h[c], h[2 * i + 2])
    ensures 2 * i + 2 < |h| && c == 2 * i + 2 ==> comp(h[2 * i + 1], h[c])
  {
    if 2 * i + 2 < |h| && comp(h[2 * i + 1], h[2 * i + 2]) then 2 * i + 2 else 2 * i + 1
  }

  lemma LastChildIsLast<T(!new)>(h: seq<T>, comp: (T, T) -> bool, i: nat, k: nat)
    requires StrictWeak(comp) && 2 * i + 1 < |h| && 0 < k < |h| && Parent(k) == i
    ensures !comp(h[LastChild(h, comp, i)], h[k])
  {
  }

  lemma SiftDownStep<T(!new)>(h: seq<T>, comp: (T, T) -> bool, i: nat)
    requires StrictWeak(comp) && 2 * i + 1 < |h| && HeapExceptBelow(h, comp, i)
    requires comp(h[i], h[LastChild(h, comp, i)])
    ensures HeapExceptBelow(Swap(h, i, LastChild(h, comp, i)), comp, LastChild(h, comp, i))
  {
    var c := LastChild(h, comp, i);
    var r := Swap(h, i, c);
    forall k | 0 < k < |r| && Parent(k) != c
      ensures !comp(r[Parent(k)], r[k])
    {
      if Parent(k) == i {
        LastChildIsLast(h, comp, i, k);
      }
    }
  }

  lemma SiftDownEnd<T(!new)>(h: seq<T>, comp: (T, T) -> bool, i: nat)
    requires StrictWeak(comp) && i < |h| && HeapExceptBelow(h, comp, i)
    requires 2 * i + 1 < |h| ==> !comp(h[i], h[LastChild(h, comp, i)])
    ensures IsHeap(h, comp)
  {
    forall k | 0 < k < |h| && Parent(k) == i
      ensures !comp(h[i], h[k])
    {
      LastChildIsLast(h, comp, i, k);
    }
  }

  method SiftDown<T(!new)>(h: seq<T>, comp: (T, T) -> bool) returns (r: seq<T>)
    requires StrictWeak(comp) && HeapExceptBelow(h, comp, 0)
    ensures IsHeap(r, comp) && multiset(r) == multiset(h) && |r| == |h|
  {
    r := h;
    if r == [] {
      return;
    }
    var i := 0;
    while 2 * i + 1 < |r| && comp(r[i], r[LastChild(r, comp, i)])
      invariant i < |r| == |h| && multiset(r) == multiset(h) && HeapExceptBelow(r, comp, i)
      decreases |r| - i
    {
      var c := LastChild(r, comp, i);
      SiftDownStep(r, comp, i);
      r := Swap(r, i, c);
      i := c;
    }
    SiftDownEnd(r, comp, i);
  }

  /** Moves the front to the back, and makes a heap of the others. */
  method PopHeap<T(!new)>(h: seq<T>, comp: (T, T) -> bool) returns (r: seq<T>)
    requires StrictWeak(comp) && h != [] && IsHeap(h, comp)
    ensures |r| == |h| && r[|r| - 1] == h[0] && IsHeap(r[..|r| - 1], comp)
    ensures multiset(r) == multiset(h)
  {
    var last := |h| - 1;
    var swapped := Swap(h, 0, last);
    assert swapped == swapped[..last] + [h[0]];
    assert forall k :: 0 < k < last ==> swapped[..last][k] == h[k];
    var sifted := SiftDown(swapped[..last], comp);
    r := sifted + [h[0]];
    assert r[..last] == sifted;
  }

  // ---------- sort_heap ----------

  /** Sorted: none comes before an earlier one. */
  ghost predicate Sorted<T(!new)>(s: seq<T>, comp: (T, T) -> bool) {
    forall i, j :: 0 <= i < j < |s| ==> !comp(s[j], s[i])
  }

  /** The sorted part comes after everything that is still in the heap. */
  ghost predicate Follows<T(!new)>(heap: seq<T>, sorted: seq<T>, comp: (T, T) -> bool) {
    forall a, b :: a in heap && b in sorted ==> !comp(b, a)
  }

  lemma MovedToSorted<T(!new)>(before: seq<T>, popped: seq<T>, sorted: seq<T>, comp: (T, T) -> bool)
    requires StrictWeak(comp) && IsHeap(before, comp) && before != []
    requires multiset(popped) + multiset{before[0]} == multiset(before)
    requires Sorted(sorted, comp) && Follows(before, sorted, comp)
    ensures Sorted([before[0]] + sorted, comp) && Follows(popped, [before[0]] + sorted, comp)
  {
    forall a | a in popped
      ensures a in before && !comp(before[0], a)
    {
      assert a in multiset(popped) && a in multiset(before);
      var i :| 0 <= i < |before| && before[i] == a;
      FrontIsLast(before, comp, i);
    }
  }

  method SortHeap<T(!new)>(h: seq<T>, comp: (T, T) -> bool) returns (r: seq<T>)
    requires StrictWeak(comp) && IsHeap(h, comp)
    ensures Sorted(r, comp) && multiset(r) == multiset(h) && |r| == |h|
  {
    var heap: seq<T>, sorted: seq<T> := h, [];
    while heap != []
      invariant IsHeap(heap, comp) && Sorted(sorted, comp) && Follows(heap, sorted, comp)
      invariant multiset(heap) + multiset(sorted) == multiset(h) && |heap| + |sorted| == |h|
      decreases |heap|
    {
      var popped := PopHeap(heap, comp);
      assert popped == popped[..|heap| - 1] + [heap[0]];
      MovedToSorted(heap, popped[..|heap| - 1], sorted, comp);
      heap, sorted := popped[..|heap| - 1], [heap[0]] + sorted;
    }
    r := sorted;
  }
}
