/**
 * The two .NET collections the client mutates: `List<StockTickerData>` and the untyped
 * `ArrayList` of sequence numbers. Both are a growable list with `Add` and an in-place `Sort`;
 * `ArrayList.BinarySearch` is the lookup the gap detector runs on the sorted list.
 */
module Collections {

  /** The elements are in ascending order of their keys. */
  predicate SortedBy<T>(s: seq<T>, key: T -> int) {
    forall j, k :: 0 <= j < k < |s| ==> key(s[j]) <= key(s[k])
  }

  /** The key of a list of integers sorted with the default comparer: the integer itself. */
  function Identity(x: int): int {
    x
  }

  /** Puts x into a sorted sequence, before the first element whose key is not smaller. */
  function Insert<T>(x: T, s: seq<T>, key: T -> int): seq<T> {
    if s == [] || key(x) <= key(s[0]) then [x] + s else [s[0]] + Insert(x, s[1..], key)
  }

  /** A reference sort: insertion sort by key. */
  function InsertionSort<T>(s: seq<T>, key: T -> int): seq<T> {
    if s == [] then [] else Insert(s[0], InsertionSort(s[1..], key), key)
  }

  /** Inserting adds exactly one occurrence of x and keeps the order. */
  lemma {:induction false} InsertCorrect<T>(x: T, s: seq<T>, key: T -> int)
    requires SortedBy(s, key)
    ensures multiset(Insert(x, s, key)) == multiset(s) + multiset{x}
    ensures SortedBy(Insert(x, s, key), key)
  {
    if s == [] || key(x) <= key(s[0]) {
      assert Insert(x, s, key) == [x] + s;
    } else {
      var rest := Insert(x, s[1..], key);
      TailSorted(s, key);
      InsertCorrect(x, s[1..], key);
      HeadAndTail(s);
      forall k | 0 <= k < |rest| ensures key(s[0]) <= key(rest[k]) {
        assert rest[k] in multiset(rest);
        if rest[k] != x {
          HeadIsLeast(s, rest[k], key);
        }
      }
      ConsSorted(s[0], rest, key);
    }
  }

  /** In a sorted list, no element of the tail has a smaller key than the head. */
  lemma HeadIsLeast<T>(s: seq<T>, y: T, key: T -> int)
    requires s != [] && SortedBy(s, key)
    requires y in multiset(s[1..])
    ensures key(s[0]) <= key(y)
  {
    var j :| 0 <= j < |s[1..]| && s[1..][j] == y;
    assert s[j + 1] == y;
  }

  /** Putting an element no larger than any of a sorted list in front keeps it sorted. */
  lemma ConsSorted<T>(x: T, s: seq<T>, key: T -> int)
    requires SortedBy(s, key)
    requires forall k :: 0 <= k < |s| ==> key(x) <= key(s[k])
    ensures SortedBy([x] + s, key)
  {
    forall j, k | 0 <= j < k < |[x] + s| ensures key(([x] + s)[j]) <= key(([x] + s)[k]) {
      assert ([x] + s)[k] == s[k - 1];
      if j > 0 {
        assert ([x] + s)[j] == s[j - 1];
      }
    }
  }

  /** Insertion sort returns its input in ascending key order, as a permutation. */
  lemma {:induction false} InsertionSortCorrect<T>(s: seq<T>, key: T -> int)
    ensures multiset(InsertionSort(s, key)) == multiset(s)
    ensures SortedBy(InsertionSort(s, key), key)
  {
    if s != [] {
      InsertionSortCorrect(s[1..], key);
      InsertCorrect(s[0], InsertionSort(s[1..], key), key);
      assert s == [s[0]] + s[1..];
    }
  }

  /** The keys are strictly ascending: no two elements share a key. */
  predicate StrictlySortedBy<T>(s: seq<T>, key: T -> int) {
    forall j, k :: 0 <= j < k < |s| ==> key(s[j]) < key(s[k])
  }

  /** Two lists strictly sorted by the same key and holding the same elements are equal. */
  lemma {:induction false} StrictlySortedIsDeterminedByElements<T>(a: seq<T>, b: seq<T>, key: T -> int)
    requires StrictlySortedBy(a, key) && StrictlySortedBy(b, key)
    requires forall x :: x in a <==> x in b
    ensures a == b
    decreases |a|
  {
    if a != [] && b != [] {
      assert a[0] in b && b[0] in a;
      var j :| 0 <= j < |b| && b[j] == a[0];
      var i :| 0 <= i < |a| && a[i] == b[0];
      assert key(a[0]) <= key(a[i]) && key(b[0]) <= key(b[j]);
      assert j == 0;
      HeadAndTail(a);
      HeadAndTail(b);
      TailStrictlySorted(a, key);
      TailStrictlySorted(b, key);
      SameTailElements(a, b, key);
      StrictlySortedIsDeterminedByElements(a[1..], b[1..], key);
    } else {
      HeadIsElement(a);
      HeadIsElement(b);
    }
  }

  /** A non-empty list holds its head. */
  lemma HeadIsElement<T>(s: seq<T>)
    ensures s != [] ==> s[0] in s
  {
  }

  /** Dropping an equal head from two strictly sorted lists with the same elements leaves the same elements. */
  lemma SameTailElements<T>(a: seq<T>, b: seq<T>, key: T -> int)
    requires a != [] && b != [] && a[0] == b[0]
    requires StrictlySortedBy(a, key) && StrictlySortedBy(b, key)
    requires forall x :: x in a <==> x in b
    ensures forall x :: x in a[1..] <==> x in b[1..]
  {
    forall x ensures x in a[1..] ==> x in b[1..] {
      if x in a[1..] {
        TailAboveHead(a, x, key);
        TailMember(b, x);
      }
    }
    forall x ensures x in b[1..] ==> x in a[1..] {
      if x in b[1..] {
        TailAboveHead(b, x, key);
        TailMember(a, x);
      }
    }
  }

  /** In a strictly sorted list every element of the tail has a larger key than the head. */
  lemma TailAboveHead<T>(s: seq<T>, x: T, key: T -> int)
    requires s != [] && StrictlySortedBy(s, key)
    requires x in s[1..]
    ensures key(s[0]) < key(x) && x in s
  {
    var k :| 0 <= k < |s[1..]| && s[1..][k] == x;
    assert s[k + 1] == x;
  }

  /** An element of a list other than its head is in its tail. */
  lemma TailMember<T>(s: seq<T>, x: T)
    requires x in s && s != [] && x != s[0]
    ensures x in s[1..]
  {
    var k :| 0 <= k < |s| && s[k] == x;
    assert s[1..][k - 1] == x;
  }

  /**
   * An unstable sort is still deterministic when no two elements share a key: a sorted
   * permutation of a list whose keys are all distinct is the one strictly sorted arrangement.
   */
  lemma {:induction false} SortIsUniqueWhenKeysDiffer<T>(a: seq<T>, b: seq<T>, key: T -> int)
    requires SortedBy(a, key) && StrictlySortedBy(b, key)
    requires multiset(a) == multiset(b)
    ensures a == b
    decreases |a|
  {
    assert |a| == |b| by {
      assert |a| == |multiset(a)| && |b| == |multiset(b)|;
    }
    if a != [] {
      assert a[0] in b by {
        assert a[0] in multiset(a);
      }
      assert b[0] in a by {
        assert b[0] in multiset(b);
      }
      var j :| 0 <= j < |b| && b[j] == a[0];
      var i :| 0 <= i < |a| && a[i] == b[0];
      assert key(a[0]) <= key(a[i]);
      assert key(b[0]) <= key(b[j]);
      assert j == 0;
      HeadAndTail(a);
      HeadAndTail(b);
      TailSorted(a, key);
      TailStrictlySorted(b, key);
      SortIsUniqueWhenKeysDiffer(a[1..], b[1..], key);
    }
  }

  lemma TailSorted<T>(s: seq<T>, key: T -> int)
    requires s != [] && SortedBy(s, key)
    ensures SortedBy(s[1..], key)
  {
    forall j, k | 0 <= j < k < |s[1..]| ensures key(s[1..][j]) <= key(s[1..][k]) {
      assert s[1..][j] == s[j + 1] && s[1..][k] == s[k + 1];
    }
  }

  lemma TailStrictlySorted<T>(s: seq<T>, key: T -> int)
    requires s != [] && StrictlySortedBy(s, key)
    ensures StrictlySortedBy(s[1..], key)
  {
    forall j, k | 0 <= j < k < |s[1..]| ensures key(s[1..][j]) < key(s[1..][k]) {
      assert s[1..][j] == s[j + 1] && s[1..][k] == s[k + 1];
    }
  }

  /** A non-empty list is its head followed by its tail, also as a multiset. */
  lemma HeadAndTail<T>(s: seq<T>)
    requires s != []
    ensures s == [s[0]] + s[1..]
    ensures multiset(s[1..]) == multiset(s) - multiset{s[0]}
  {
    assert s == [s[0]] + s[1..];
  }

  /** Taking out the element at i takes out exactly one occurrence of it. */
  lemma RemoveAt<T>(s: seq<T>, i: nat)
    requires i < |s|
    ensures s == s[..i] + [s[i]] + s[i + 1..]
    ensures multiset(s[..i] + s[i + 1..]) == multiset(s) - multiset{s[i]}
  {
    assert s[i..] == [s[i]] + s[i + 1..];
    assert s == s[..i] + s[i..];
  }

  /** A .NET `List<T>` or `ArrayList`: a growable list that its methods change in place. */
  class List<T(==)> {
    var items: seq<T>

    /** `new List<T>()`, `new ArrayList()`: an empty list. */
    constructor ()
      ensures items == []
    {
      items := [];
    }

    /** `Add`: appends one element at the end. */
    method Add(x: T)
      modifies this
      ensures items == old(items) + [x]
    {
      items := items + [x];
    }

    /**
     * `Sort`: rearranges the elements into ascending key order. The .NET sort is not stable, so
     * nothing is promised about the relative order of elements with equal keys.
     */
    method Sort(key: T -> int)
      modifies this
      ensures SortedBy(items, key)
      ensures multiset(items) == multiset(old(items))
    {
      InsertionSortCorrect(items, key);
      items := InsertionSort(items, key);
    }
  }

  /**
   * `ArrayList.BinarySearch` on an ascending list: the index of an element equal to value,
   * or, when there is none, the bitwise complement `~p == -p - 1` of the position p of the first
   * larger element (the length when there is none).
   */
  method BinarySearch(list: seq<int>, value: int) returns (index: int)
    requires SortedBy(list, Identity)
    ensures 0 <= index ==> index < |list| && list[index] == value
    ensures index < 0 ==> value !in list
    ensures index < 0 ==> var p := -index - 1;
      p <= |list| &&
      (forall k :: 0 <= k < p ==> list[k] < value) &&
      (forall k :: p <= k < |list| ==> value < list[k])
  {
    var lo, hi := 0, |list| - 1;
    while lo <= hi
      invariant 0 <= lo <= hi + 1 <= |list|
      invariant forall k :: 0 <= k < lo ==> list[k] < value
      invariant forall k :: hi < k < |list| ==> value < list[k]
    {
      var mid := lo + (hi - lo) / 2;
      if list[mid] == value {
        return mid;
      } else if list[mid] < value {
        lo := mid + 1;
      } else {
        hi := mid - 1;
      }
    }
    index := -lo - 1;
  }
}
