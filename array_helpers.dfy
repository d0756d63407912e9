/** The generic array helpers of the utility class (src/core/utils.ts, "Array Helpers").
    Arrays that a helper only reads are modelled as sequences; `removeValue`, the one
    helper that mutates its argument, works on a `DynamicArray` object. Element and key
    equality (`===`, `includes`, `Set` membership) is Dafny's `==`. */
module ArrayHelpers {
  import opened Modular

  // ---------------------------------------------------------------------------
  // Subsequences: what an order-preserving filter returns
  // ---------------------------------------------------------------------------

  /** `sub` is `s` with some elements deleted and the rest kept in order. */
  predicate IsSubsequence<T(==)>(sub: seq<T>, s: seq<T>)
    decreases |s|
  {
    if |sub| == 0 then true
    else if |s| == 0 then false
    else (sub[0] == s[0] && IsSubsequence(sub[1..], s[1..])) || IsSubsequence(sub, s[1..])
  }

  /** A subsequence holds no more copies of any value than the sequence it comes from. */
  lemma {:induction false} SubsequenceCounts<T>(sub: seq<T>, s: seq<T>)
    requires IsSubsequence(sub, s)
    ensures multiset(sub) <= multiset(s)
    decreases |s|
  {
    if |sub| == 0 {
    } else if sub[0] == s[0] && IsSubsequence(sub[1..], s[1..]) {
      SubsequenceCounts(sub[1..], s[1..]);
      assert sub == [sub[0]] + sub[1..];
      assert s == [s[0]] + s[1..];
    } else {
      SubsequenceCounts(sub, s[1..]);
      assert s == [s[0]] + s[1..];
    }
  }

  // ---------------------------------------------------------------------------
  // removeIf and subtract: order-preserving filters that leave their input alone
  // ---------------------------------------------------------------------------

  /** `removeIf(array, predicate)`: `array.filter(item => !predicate(item))`. */
  function RemoveIf<T>(arr: seq<T>, pred: T -> bool): (r: seq<T>)
    ensures |r| <= |arr|
    ensures forall i :: 0 <= i < |r| ==> !pred(r[i])
  {
    if |arr| == 0 then []
    else (if pred(arr[0]) then [] else [arr[0]]) + RemoveIf(arr[1..], pred)
  }

  /** Every value keeps all its copies unless it satisfies the predicate, in which case
      none is left: with RemoveIfIsSubsequence this pins the result down completely. */
  lemma {:induction false} RemoveIfCounts<T>(arr: seq<T>, pred: T -> bool)
    ensures forall x :: multiset(RemoveIf(arr, pred))[x] == if pred(x) then 0 else multiset(arr)[x]
  {
    if |arr| > 0 {
      RemoveIfCounts(arr[1..], pred);
      assert arr == [arr[0]] + arr[1..];
    }
  }

  /** The kept elements are in their original order. */
  lemma {:induction false} RemoveIfIsSubsequence<T>(arr: seq<T>, pred: T -> bool)
    ensures IsSubsequence(RemoveIf(arr, pred), arr)
  {
    if |arr| > 0 {
      RemoveIfIsSubsequence(arr[1..], pred);
      var rest := RemoveIf(arr[1..], pred);
      if pred(arr[0]) {
        assert RemoveIf(arr, pred) == rest;
      } else {
        assert RemoveIf(arr, pred) == [arr[0]] + rest;
        assert ([arr[0]] + rest)[1..] == rest;
      }
    }
  }

  /** A value is kept exactly when it occurs in the input and does not satisfy the predicate. */
  lemma RemoveIfMembership<T>(arr: seq<T>, pred: T -> bool)
    ensures forall x :: x in RemoveIf(arr, pred) <==> x in arr && !pred(x)
  {
    RemoveIfCounts(arr, pred);
    forall x
      ensures x in RemoveIf(arr, pred) <==> x in arr && !pred(x)
    {
      assert x in RemoveIf(arr, pred) <==> multiset(RemoveIf(arr, pred))[x] > 0;
      assert x in arr <==> multiset(arr)[x] > 0;
    }
  }

  /** `subtract(array, subArray)`: the elements of `arr` that are not in `sub`, in order. */
  function Subtract<T(==)>(arr: seq<T>, sub: seq<T>): (r: seq<T>)
    ensures |r| <= |arr|
    ensures forall i :: 0 <= i < |r| ==> r[i] !in sub
  {
    RemoveIf(arr, x => x in sub)
  }

  /** A value is kept exactly when it occurs in `arr` and not in `sub`. */
  lemma SubtractMembership<T>(arr: seq<T>, sub: seq<T>)
    ensures forall x :: x in Subtract(arr, sub) <==> x in arr && x !in sub
  {
    var inSub := x => x in sub;
    assert Subtract(arr, sub) == RemoveIf(arr, inSub);
    RemoveIfMembership(arr, inSub);
  }

  /** Subtract keeps every copy of a value that is not in `sub`, in the original order. */
  lemma SubtractKeepsOrderAndCopies<T>(arr: seq<T>, sub: seq<T>)
    ensures IsSubsequence(Subtract(arr, sub), arr)
    ensures forall x :: x !in sub ==> multiset(Subtract(arr, sub))[x] == multiset(arr)[x]
  {
    var inSub := x => x in sub;
    assert Subtract(arr, sub) == RemoveIf(arr, inSub);
    RemoveIfIsSubsequence(arr, inSub);
    RemoveIfCounts(arr, inSub);
  }

  // ---------------------------------------------------------------------------
  // hasValue
  // ---------------------------------------------------------------------------

  /** `hasValue(array, value)`: `array.includes(value)`, a scan from the front. */
  function HasValue<T(==)>(arr: seq<T>, value: T): (r: bool)
    ensures r <==> exists i :: 0 <= i < |arr| && arr[i] == value
  {
    |arr| > 0 && (arr[0] == value || HasValue(arr[1..], value))
  }

  /** A value survives `subtract` exactly when the first array has it and the second does not. */
  lemma HasValueAfterSubtract<T>(arr: seq<T>, sub: seq<T>, value: T)
    ensures HasValue(Subtract(arr, sub), value) <==> HasValue(arr, value) && !HasValue(sub, value)
  {
    var r := Subtract(arr, sub);
    SubtractMembership(arr, sub);
    assert HasValue(r, value) <==> value in r;
    assert HasValue(arr, value) <==> value in arr;
    assert HasValue(sub, value) <==> value in sub;
  }

  // ---------------------------------------------------------------------------
  // cycle
  // ---------------------------------------------------------------------------

  /** `cycle(arr, shift)`: the array rotated left by `shift`. The source normalises the
      shift with JavaScript's truncating `%`, as `((shift % n) + n) % n`. */
  function Cycle<T>(arr: seq<T>, shift: int): (r: seq<T>)
    ensures |r| == |arr|
  {
    if |arr| == 0 then []
    else
      var s := NormalisedShift(shift, |arr|);
      arr[s..] + arr[..s]
  }

  /** The source's `((shift % n) + n) % n`, with JavaScript's truncating `%`: the Euclidean
      remainder, so that a negative shift rotates right. */
  function NormalisedShift(shift: int, n: int): (s: int)
    requires n > 0
    ensures 0 <= s < n && s == shift % n
  {
    NormalisedJsRemainder(shift, n);
    JsRemainder(JsRemainder(shift, n) + n, n)
  }

  /** Element `k` of the result is element `(k + shift) mod n` of the input, for any shift. */
  lemma CycleAt<T>(arr: seq<T>, shift: int, k: int)
    requires 0 <= k < |arr|
    ensures Cycle(arr, shift)[k] == arr[(k + shift) % |arr|]
  {
    var n := |arr|;
    var s := shift % n;
    assert shift == n * (shift / n) + s;
    if k < n - s {
      ModUnique(k + shift, n, shift / n, k + s);
    } else {
      ModUnique(k + shift, n, shift / n + 1, k + s - n);
    }
  }

  /** CycleAt for every index at once. */
  lemma CycleIndices<T>(arr: seq<T>, shift: int)
    ensures forall k :: 0 <= k < |arr| ==> Cycle(arr, shift)[k] == arr[(k + shift) % |arr|]
  {
    forall k | 0 <= k < |arr|
      ensures Cycle(arr, shift)[k] == arr[(k + shift) % |arr|]
    {
      CycleAt(arr, shift, k);
    }
  }

  /** A rotation is a permutation. */
  lemma CyclePermutes<T>(arr: seq<T>, shift: int)
    ensures multiset(Cycle(arr, shift)) == multiset(arr)
  {
    if |arr| > 0 {
      var s := shift % |arr|;
      assert arr == arr[..s] + arr[s..];
    }
  }

  /** Shifting by a multiple of the length gives the input back. */
  lemma CycleByMultiple<T>(arr: seq<T>, m: int)
    ensures Cycle(arr, m * |arr|) == arr
  {
    var n := |arr|;
    if n > 0 {
      forall k | 0 <= k < n
        ensures Cycle(arr, m * n)[k] == arr[k]
      {
        CycleAt(arr, m * n, k);
        ModUnique(k + m * n, n, m, k);
      }
    }
  }

  /** CycleAt, with the remainder given by a quotient and a remainder in range. */
  lemma CycleAtCongruent<T>(arr: seq<T>, shift: int, k: int, q: int, m: int)
    requires 0 <= k < |arr| && 0 <= m < |arr| && k + shift == |arr| * q + m
    ensures Cycle(arr, shift)[k] == arr[m]
  {
    ModUnique(k + shift, |arr|, q, m);
    CycleAt(arr, shift, k);
  }

  /** Rotating back by the same shift brings every element home. */
  lemma CycleInverseAt<T>(arr: seq<T>, once: seq<T>, shift: int, k: int)
    requires 0 <= k < |arr| && once == Cycle(arr, shift)
    ensures Cycle(once, -shift)[k] == arr[k]
  {
    var n := |arr|;
    var q, j := (k - shift) / n, (k - shift) % n;
    CycleAtCongruent(once, -shift, k, q, j);
    assert n * -q == -(n * q);
    CycleAtCongruent(arr, shift, j, -q, k);
  }

  /** Rotating back by the same shift undoes a rotation. */
  lemma CycleInverse<T>(arr: seq<T>, shift: int)
    ensures Cycle(Cycle(arr, shift), -shift) == arr
  {
    forall k | 0 <= k < |arr|
      ensures Cycle(Cycle(arr, shift), -shift)[k] == arr[k]
    {
      CycleInverseAt(arr, Cycle(arr, shift), shift, k);
    }
  }

  // ---------------------------------------------------------------------------
  // unique
  // ---------------------------------------------------------------------------

  /** The filter inside `unique` after it has seen the keys in `seen`: an item is kept
      when its key is new, and its key is then added to `seen`. */
  function UniqueFrom<T, K(==)>(arr: seq<T>, key: T -> K, seen: set<K>): seq<T>
  {
    if |arr| == 0 then []
    else if key(arr[0]) in seen then UniqueFrom(arr[1..], key, seen)
    else [arr[0]] + UniqueFrom(arr[1..], key, seen + {key(arr[0])})
  }

  /** `unique(arr, hashFunc)`: the items whose key `hashFunc(item)` was not seen before. */
  function UniqueBy<T, K(==)>(arr: seq<T>, hashFunc: T -> K): (r: seq<T>)
    ensures IsSubsequence(r, arr)
    ensures forall i, j :: 0 <= i < j < |r| ==> hashFunc(r[i]) != hashFunc(r[j])
  {
    UniqueFromIsSubsequence(arr, hashFunc, {});
    UniqueFromDistinct(arr, hashFunc, {});
    UniqueFrom(arr, hashFunc, {})
  }

  /** `unique(arr)` without a hash function: the item itself is the key, so no value
      is kept twice. */
  function Unique<T(==)>(arr: seq<T>): (r: seq<T>)
    ensures IsSubsequence(r, arr)
    ensures forall i, j :: 0 <= i < j < |r| ==> r[i] != r[j]
  {
    var r := UniqueBy(arr, Identity);
    assert forall i, j :: 0 <= i < j < |r| ==> Identity(r[i]) != Identity(r[j]);
    r
  }

  function Identity<T>(x: T): T { x }

  /** The keys of a sequence. */
  function KeysOf<T, K>(s: seq<T>, key: T -> K): set<K>
  {
    set i | 0 <= i < |s| :: key(s[i])
  }

  /** Item `i` is the first item with its key. */
  predicate IsFirstOccurrence<T, K(==)>(arr: seq<T>, key: T -> K, i: int)
    requires 0 <= i < |arr|
  {
    forall j :: 0 <= j < i ==> key(arr[j]) != key(arr[i])
  }

  /** Reference definition: the items at or after `i` that are first occurrences of their
      key, in index order. */
  function FirstOccurrencesFrom<T, K(==)>(arr: seq<T>, key: T -> K, i: nat): seq<T>
    decreases |arr| - i
  {
    if i >= |arr| then []
    else (if IsFirstOccurrence(arr, key, i) then [arr[i]] else []) + FirstOccurrencesFrom(arr, key, i + 1)
  }

  lemma {:induction false} UniqueFromIsFirstOccurrences<T, K>(arr: seq<T>, key: T -> K, i: nat)
    requires i <= |arr|
    ensures UniqueFrom(arr[i..], key, KeysOf(arr[..i], key)) == FirstOccurrencesFrom(arr, key, i)
    decreases |arr| - i
  {
    if i < |arr| {
      var seen := KeysOf(arr[..i], key);
      assert key(arr[i]) in seen <==> !IsFirstOccurrence(arr, key, i) by {
        if key(arr[i]) in seen {
          var j :| 0 <= j < i && key(arr[..i][j]) == key(arr[i]);
          assert key(arr[j]) == key(arr[i]);
        }
        if !IsFirstOccurrence(arr, key, i) {
          var j :| 0 <= j < i && key(arr[j]) == key(arr[i]);
          assert key(arr[..i][j]) == key(arr[i]);
        }
      }
      assert KeysOf(arr[..i + 1], key) == seen + {key(arr[i])} by {
        assert arr[..i + 1][i] == arr[i];
        forall k | k in KeysOf(arr[..i + 1], key) ensures k in seen + {key(arr[i])} {
          var j :| 0 <= j < i + 1 && key(arr[..i + 1][j]) == k;
          if j < i { assert key(arr[..i][j]) == k; }
        }
        forall k | k in seen ensures k in KeysOf(arr[..i + 1], key) {
          var j :| 0 <= j < i && key(arr[..i][j]) == k;
          assert key(arr[..i + 1][j]) == k;
        }
      }
      assert arr[i..][1..] == arr[i + 1..];
      UniqueFromIsFirstOccurrences(arr, key, i + 1);
      if key(arr[i]) in seen {
        assert KeysOf(arr[..i + 1], key) == seen;
      }
    }
  }

  /** `unique` keeps exactly the first item of every key, in the original order. */
  lemma UniqueIsFirstOccurrences<T, K>(arr: seq<T>, hashFunc: T -> K)
    ensures UniqueBy(arr, hashFunc) == FirstOccurrencesFrom(arr, hashFunc, 0)
  {
    assert arr[0..] == arr;
    assert KeysOf(arr[..0], hashFunc) == {};
    UniqueFromIsFirstOccurrences(arr, hashFunc, 0);
  }

  /** No two kept items share a key, and no kept key was seen before. */
  lemma {:induction false} UniqueFromDistinct<T, K>(arr: seq<T>, key: T -> K, seen: set<K>)
    ensures forall i :: 0 <= i < |UniqueFrom(arr, key, seen)| ==> key(UniqueFrom(arr, key, seen)[i]) !in seen
    ensures forall i, j :: 0 <= i < j < |UniqueFrom(arr, key, seen)| ==>
              key(UniqueFrom(arr, key, seen)[i]) != key(UniqueFrom(arr, key, seen)[j])
  {
    if |arr| > 0 {
      if key(arr[0]) in seen {
        UniqueFromDistinct(arr[1..], key, seen);
      } else {
        UniqueFromDistinct(arr[1..], key, seen + {key(arr[0])});
      }
    }
  }

  /** Every key of the input is the key of some kept item (or was seen before). */
  lemma {:induction false} UniqueFromCovers<T, K>(arr: seq<T>, key: T -> K, seen: set<K>)
    ensures forall i :: 0 <= i < |arr| ==>
              key(arr[i]) in seen || key(arr[i]) in KeysOf(UniqueFrom(arr, key, seen), key)
  {
    if |arr| > 0 {
      var r := UniqueFrom(arr, key, seen);
      if key(arr[0]) in seen {
        UniqueFromCovers(arr[1..], key, seen);
        forall i | 0 <= i < |arr| ensures key(arr[i]) in seen || key(arr[i]) in KeysOf(r, key) {
          if i > 0 { assert arr[i] == arr[1..][i - 1]; }
        }
      } else {
        var rest := UniqueFrom(arr[1..], key, seen + {key(arr[0])});
        UniqueFromCovers(arr[1..], key, seen + {key(arr[0])});
        assert r == [arr[0]] + rest;
        assert key(r[0]) in KeysOf(r, key);
        forall i | 0 <= i < |arr| ensures key(arr[i]) in seen || key(arr[i]) in KeysOf(r, key) {
          if i > 0 {
            assert arr[i] == arr[1..][i - 1];
            if key(arr[i]) in KeysOf(rest, key) {
              var j :| 0 <= j < |rest| && key(rest[j]) == key(arr[i]);
              assert r[j + 1] == rest[j];
            }
          }
        }
      }
    }
  }

  /** The kept items are a subsequence of the input. */
  lemma {:induction false} UniqueFromIsSubsequence<T, K>(arr: seq<T>, key: T -> K, seen: set<K>)
    ensures IsSubsequence(UniqueFrom(arr, key, seen), arr)
  {
    if |arr| > 0 {
      if key(arr[0]) in seen {
        UniqueFromIsSubsequence(arr[1..], key, seen);
      } else {
        var rest := UniqueFrom(arr[1..], key, seen + {key(arr[0])});
        UniqueFromIsSubsequence(arr[1..], key, seen + {key(arr[0])});
        assert ([arr[0]] + rest)[1..] == rest;
      }
    }
  }

  /** What `unique` promises: an order-preserving subsequence of the input with pairwise
      distinct keys, in which every key of the input is represented. */
  lemma UniqueSpec<T, K>(arr: seq<T>, hashFunc: T -> K)
    ensures IsSubsequence(UniqueBy(arr, hashFunc), arr)
    ensures forall i, j :: 0 <= i < j < |UniqueBy(arr, hashFunc)| ==>
              hashFunc(UniqueBy(arr, hashFunc)[i]) != hashFunc(UniqueBy(arr, hashFunc)[j])
    ensures KeysOf(UniqueBy(arr, hashFunc), hashFunc) == KeysOf(arr, hashFunc)
  {
    var r := UniqueBy(arr, hashFunc);
    UniqueFromIsSubsequence(arr, hashFunc, {});
    UniqueFromDistinct(arr, hashFunc, {});
    UniqueFromCovers(arr, hashFunc, {});
    SubsequenceCounts(r, arr);
    forall k | k in KeysOf(r, hashFunc) ensures k in KeysOf(arr, hashFunc) {
      var j :| 0 <= j < |r| && hashFunc(r[j]) == k;
      assert r[j] in multiset(r);
      assert r[j] in arr;
    }
  }

  /** Items with pairwise distinct keys, none seen before, all pass the filter. */
  lemma {:induction false} UniqueFromOfDistinct<T, K>(arr: seq<T>, key: T -> K, seen: set<K>)
    requires forall i :: 0 <= i < |arr| ==> key(arr[i]) !in seen
    requires forall i, j :: 0 <= i < j < |arr| ==> key(arr[i]) != key(arr[j])
    ensures UniqueFrom(arr, key, seen) == arr
  {
    if |arr| > 0 {
      var seen' := seen + {key(arr[0])};
      forall i | 0 <= i < |arr[1..]| ensures key(arr[1..][i]) !in seen' {
        assert arr[1..][i] == arr[i + 1];
      }
      UniqueFromOfDistinct(arr[1..], key, seen');
      assert arr == [arr[0]] + arr[1..];
    }
  }

  /** Applying `unique` twice is the same as applying it once. */
  lemma UniqueIdempotent<T, K>(arr: seq<T>, hashFunc: T -> K)
    ensures UniqueBy(UniqueBy(arr, hashFunc), hashFunc) == UniqueBy(arr, hashFunc)
  {
    UniqueFromDistinct(arr, hashFunc, {});
    UniqueFromOfDistinct(UniqueBy(arr, hashFunc), hashFunc, {});
  }

  // ---------------------------------------------------------------------------
  // removeValue: deletion in place
  // ---------------------------------------------------------------------------

  /** A JavaScript array: a resizable list of elements that several holders may share,
      so that a change made through one reference is seen through all of them. */
  class DynamicArray<T> {
    var elements: seq<T>

    constructor (init: seq<T>)
      ensures elements == init
    {
      elements := init;
    }
  }

  /** The predicate "is `value`", as `removeValue` tests it with `===`. */
  function EqualTo<T(==)>(value: T): T -> bool
  {
    x => x == value
  }

  /** Deleting every copy of a value leaves none, keeps the other elements in order and
      shortens the sequence by the number of copies. */
  lemma {:induction false} RemoveAllCopies<T>(arr: seq<T>, value: T)
    ensures value !in RemoveIf(arr, EqualTo(value))
    ensures IsSubsequence(RemoveIf(arr, EqualTo(value)), arr)
    ensures |RemoveIf(arr, EqualTo(value))| == |arr| - multiset(arr)[value]
  {
    RemoveIfIsSubsequence(arr, EqualTo(value));
    if |arr| > 0 {
      RemoveAllCopies(arr[1..], value);
      assert arr == [arr[0]] + arr[1..];
    }
  }

  /** `removeValue(array, value)`: walks the array from the back and splices out every
      element equal to `value`. */
  method RemoveValue<T(==)>(items: DynamicArray<T>, value: T)
    modifies items
    ensures items.elements == RemoveIf(old(items.elements), EqualTo(value))
    ensures value !in items.elements
    ensures IsSubsequence(items.elements, old(items.elements))
    ensures |items.elements| == |old(items.elements)| - multiset(old(items.elements))[value]
  {
    ghost var original := items.elements;
    var i := |items.elements| - 1;
    while i >= 0
      invariant -1 <= i < |original|
      invariant items.elements == original[..i + 1] + RemoveIf(original[i + 1..], EqualTo(value))
      decreases i + 1
    {
      SpliceStep(original, items.elements, i, value);
      if items.elements[i] == value {
        items.elements := items.elements[..i] + items.elements[i + 1..];
      }
      i := i - 1;
    }
    assert original[0..] == original;
    RemoveAllCopies(original, value);
  }

  /** One iteration of the backward loop of `removeValue`: when everything past index `i`
      is already filtered, splicing out `cur[i]` if it equals `value` (and keeping it
      otherwise) leaves everything from index `i` on filtered. */
  lemma SpliceStep<T>(original: seq<T>, cur: seq<T>, i: int, value: T)
    requires 0 <= i < |original|
    requires cur == original[..i + 1] + RemoveIf(original[i + 1..], EqualTo(value))
    ensures cur[i] == value ==> cur[..i] + cur[i + 1..] == original[..i] + RemoveIf(original[i..], EqualTo(value))
    ensures cur[i] != value ==> cur == original[..i] + RemoveIf(original[i..], EqualTo(value))
  {
    ghost var done := RemoveIf(original[i + 1..], EqualTo(value));
    assert cur[..i] == original[..i];
    assert cur[i] == original[i];
    assert cur[i + 1..] == done;
    RemoveIfStep(original, i, EqualTo(value));
    assert original[..i + 1] == original[..i] + [original[i]];
  }

  /** One step of the filter, at index `i`. */
  lemma RemoveIfStep<T>(arr: seq<T>, i: int, pred: T -> bool)
    requires 0 <= i < |arr|
    ensures RemoveIf(arr[i..], pred) == (if pred(arr[i]) then [] else [arr[i]]) + RemoveIf(arr[i + 1..], pred)
  {
    assert arr[i..][1..] == arr[i + 1..];
  }
}
