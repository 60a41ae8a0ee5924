/** Merge sort of the binary-search-tree exercise. Elements are compared by
    an integer key (the order `<=` the Ruby code uses on them); several
    distinct elements may share a key, which is what makes stability a
    property worth stating. Duplicates are kept: nothing is removed. */
module TreeArraySort {

  /** Ascending (non-strict) order by key. */
  ghost predicate Sorted<T>(s: seq<T>, key: T -> int)
  {
    forall i, j :: 0 <= i < j < |s| ==> key(s[i]) <= key(s[j])
  }

  /** The elements of `s` whose key is `k`, in their order in `s`. */
  function WithKey<T>(s: seq<T>, key: T -> int, k: int): seq<T>
  {
    if s == [] then []
    else (if key(s[0]) == k then [s[0]] else []) + WithKey(s[1..], key, k)
  }

  lemma {:induction false} WithKeyAppend<T>(s: seq<T>, t: seq<T>, key: T -> int, k: int)
    ensures WithKey(s + t, key, k) == WithKey(s, key, k) + WithKey(t, key, k)
  {
    if s != [] {
      assert (s + t)[1..] == s[1..] + t;
      WithKeyAppend(s[1..], t, key, k);
    } else {
      assert s + t == t;
    }
  }

  /** No element of a sorted sequence whose first key exceeds `k` has key `k`. */
  lemma {:induction false} WithKeyAbove<T>(s: seq<T>, key: T -> int, k: int)
    requires Sorted(s, key)
    requires s != [] ==> key(s[0]) > k
    ensures WithKey(s, key, k) == []
  {
    if s != [] {
      WithKeyAbove(s[1..], key, k);
    }
  }

  /** Specification of `_merge_helper`: repeatedly take the smaller head,
      the left one on a tie; once a side is empty, the other follows. */
  function Merge<T>(left: seq<T>, right: seq<T>, key: T -> int): seq<T>
    decreases |left| + |right|
  {
    if left == [] then right
    else if right == [] then left
    else if key(left[0]) <= key(right[0]) then [left[0]] + Merge(left[1..], right, key)
    else [right[0]] + Merge(left, right[1..], key)
  }

  /** Merging neither loses nor adds elements: the lengths add up. */
  lemma {:induction false} MergeLength<T>(left: seq<T>, right: seq<T>, key: T -> int)
    ensures |Merge(left, right, key)| == |left| + |right|
    decreases |left| + |right|
  {
    if left == [] || right == [] {
    } else if key(left[0]) <= key(right[0]) {
      MergeLength(left[1..], right, key);
    } else {
      MergeLength(left, right[1..], key);
    }
  }

  /** Merging keeps every element, duplicates included. */
  lemma {:induction false} MergePermutation<T>(left: seq<T>, right: seq<T>, key: T -> int)
    ensures multiset(Merge(left, right, key)) == multiset(left) + multiset(right)
    decreases |left| + |right|
  {
    if left == [] || right == [] {
    } else if key(left[0]) <= key(right[0]) {
      var rest := Merge(left[1..], right, key);
      assert Merge(left, right, key) == [left[0]] + rest;
      MergePermutation(left[1..], right, key);
      assert left == [left[0]] + left[1..];
    } else {
      var rest := Merge(left, right[1..], key);
      assert Merge(left, right, key) == [right[0]] + rest;
      MergePermutation(left, right[1..], key);
      assert right == [right[0]] + right[1..];
    }
  }

  /** The first element of a merge of two non-empty inputs is the smaller head. */
  lemma MergeHead<T>(left: seq<T>, right: seq<T>, key: T -> int)
    requires left != [] || right != []
    ensures Merge(left, right, key) != []
    ensures Merge(left, right, key)[0] ==
              if left == [] then right[0]
              else if right == [] then left[0]
              else if key(left[0]) <= key(right[0]) then left[0] else right[0]
  {
  }

  /** Two ascending inputs merge into an ascending output. */
  lemma {:induction false} MergeSorted<T>(left: seq<T>, right: seq<T>, key: T -> int)
    requires Sorted(left, key) && Sorted(right, key)
    ensures Sorted(Merge(left, right, key), key)
    decreases |left| + |right|
  {
    if left == [] || right == [] {
    } else if key(left[0]) <= key(right[0]) {
      MergeSorted(left[1..], right, key);
      var rest := Merge(left[1..], right, key);
      if rest != [] {
        MergeHead(left[1..], right, key);
      }
      assert forall j :: 0 <= j < |rest| ==> key(rest[0]) <= key(rest[j]);
    } else {
      MergeSorted(left, right[1..], key);
      var rest := Merge(left, right[1..], key);
      if rest != [] {
        MergeHead(left, right[1..], key);
      }
      assert forall j :: 0 <= j < |rest| ==> key(rest[0]) <= key(rest[j]);
    }
  }

  /** Stability of the merge: among elements with equal keys, those of the
      left input come first, each side in its own order. */
  lemma {:induction false} MergeStable<T>(left: seq<T>, right: seq<T>, key: T -> int, k: int)
    requires Sorted(left, key) && Sorted(right, key)
    ensures WithKey(Merge(left, right, key), key, k) == WithKey(left, key, k) + WithKey(right, key, k)
    decreases |left| + |right|
  {
    if left == [] || right == [] {
    } else if key(left[0]) <= key(right[0]) {
      var rest := Merge(left[1..], right, key);
      assert Merge(left, right, key) == [left[0]] + rest;
      MergeStable(left[1..], right, key, k);
      WithKeyAppend([left[0]], rest, key, k);
      assert left == [left[0]] + left[1..];
      WithKeyAppend([left[0]], left[1..], key, k);
    } else {
      var rest := Merge(left, right[1..], key);
      assert Merge(left, right, key) == [right[0]] + rest;
      MergeStable(left, right[1..], key, k);
      WithKeyAppend([right[0]], rest, key, k);
      assert right == [right[0]] + right[1..];
      WithKeyAppend([right[0]], right[1..], key, k);
      if key(right[0]) == k {
        WithKeyAbove(left, key, k);
      } else {
        assert WithKey([right[0]], key, k) == [];
      }
    }
  }

  /** The split of `merge_sort`: the left half has floor(n/2) elements and the
      right half the rest, so for odd n the left half is one shorter. */
  function Split<T>(a: seq<T>): (halves: (seq<T>, seq<T>))
    ensures halves.0 + halves.1 == a
    ensures |halves.0| == |a| / 2
    ensures |halves.1| == |halves.0| + |a| % 2
  {
    (a[..|a| / 2], a[|a| / 2..])
  }

  /** `merge_sort`: arrays of length at most one are returned unchanged;
      others are split, both halves sorted, and the results merged. */
  function MergeSort<T>(a: seq<T>, key: T -> int): (r: seq<T>)
    ensures |a| <= 1 ==> r == a
    ensures Sorted(r, key)
    ensures multiset(r) == multiset(a)
    ensures |r| == |a|
    decreases |a|
  {
    if |a| <= 1 then a
    else
      var halves := Split(a);
      var l := MergeSort(halves.0, key);
      var rr := MergeSort(halves.1, key);
      MergeSorted(l, rr, key);
      MergeLength(l, rr, key);
      MergePermutation(l, rr, key);
      Merge(l, rr, key)
  }

  /** Merge sort is stable: for every key, the elements carrying it appear
      in the output in the order they had in the input. */
  lemma {:induction false} MergeSortStable<T>(a: seq<T>, key: T -> int, k: int)
    ensures WithKey(MergeSort(a, key), key, k) == WithKey(a, key, k)
    decreases |a|
  {
    if |a| > 1 {
      var halves := Split(a);
      MergeSortStable(halves.0, key, k);
      MergeSortStable(halves.1, key, k);
      MergeStable(MergeSort(halves.0, key), MergeSort(halves.1, key), key, k);
      WithKeyAppend(halves.0, halves.1, key, k);
    }
  }

  /** `_merge_helper`: the loop moves the smaller head of the two arrays onto
      `result` (the left one on a tie) until one array is empty, then appends
      what is left of the other. The result is the merge. */
  method MergeHelper<T>(leftArray: seq<T>, rightArray: seq<T>, key: T -> int) returns (result: seq<T>)
    ensures result == Merge(leftArray, rightArray, key)
    ensures Sorted(leftArray, key) && Sorted(rightArray, key) ==> Sorted(result, key)
    ensures multiset(result) == multiset(leftArray) + multiset(rightArray)
    ensures |result| == |leftArray| + |rightArray|
  {
    var left, right := leftArray, rightArray;
    result := [];
    while !(left == [] || right == [])
      invariant result + Merge(left, right, key) == Merge(leftArray, rightArray, key)
      decreases |left| + |right|
    {
      if key(left[0]) <= key(right[0]) {
        result := result + [left[0]];
        left := left[1..];
      } else if key(left[0]) > key(right[0]) {
        result := result + [right[0]];
        right := right[1..];
      }
    }
    if left != [] {
      result := result + left;
    } else {
      result := result + right;
    }
    MergeLength(leftArray, rightArray, key);
    MergePermutation(leftArray, rightArray, key);
    if Sorted(leftArray, key) && Sorted(rightArray, key) {
      MergeSorted(leftArray, rightArray, key);
    }
  }
}
