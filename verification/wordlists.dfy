/**
 * The word list and the lookup of a word in it.
 *
 * The list is a parameter: 2048 words, strictly ascending under Java's
 * `String.compareTo`. A lookup is `Collections.binarySearch` with the natural
 * order, which answers the position of the word or, when the word is absent,
 * `-(insertion point + 1)`.
 */
module WordLists {

  /**
   * Java's `String.compareTo`: the difference of the first differing
   * characters, or else the difference of the lengths. Only equal strings
   * compare as 0.
   */
  function CompareTo(a: string, b: string): (r: int)
    ensures r == 0 <==> a == b
  {
    if |a| == 0 || |b| == 0 then |a| - |b|
    else if a[0] != b[0] then a[0] as int - b[0] as int
    else
      assert a == [a[0]] + a[1..] && b == [b[0]] + b[1..];
      CompareTo(a[1..], b[1..])
  }

  /** a sorts strictly before b. */
  predicate Before(a: string, b: string) {
    CompareTo(a, b) < 0
  }

  /** Swapping the arguments negates the result. */
  lemma {:induction false} CompareToSwap(a: string, b: string)
    ensures CompareTo(b, a) == -CompareTo(a, b)
  {
    if |a| > 0 && |b| > 0 && a[0] == b[0] {
      CompareToSwap(a[1..], b[1..]);
    }
  }

  /** The order is transitive. */
  lemma {:induction false} BeforeTransitive(a: string, b: string, c: string)
    requires Before(a, b) && Before(b, c)
    ensures Before(a, c)
  {
    if |a| > 0 && |b| > 0 && |c| > 0 && a[0] == b[0] && b[0] == c[0] {
      BeforeTransitive(a[1..], b[1..], c[1..]);
    }
  }

  /** Strictly ascending: every word sorts before every later word. */
  predicate Sorted(wl: seq<string>) {
    forall i, j {:trigger Before(wl[i], wl[j])} :: 0 <= i < j < |wl| ==> Before(wl[i], wl[j])
  }

  /** The shape of the BIP-39 list the program loads: 2048 words, strictly ascending. */
  predicate ValidWordList(wl: seq<string>) {
    |wl| == 2048 && Sorted(wl)
  }

  /**
   * The loop of `Collections.binarySearch` on a random-access list, between
   * `low` and `high` inclusive: the middle element is compared with the key
   * (`midVal.compareTo(key)`) and the search goes right, left, or stops.
   */
  function Search(wl: seq<string>, key: string, low: nat, high: int): (r: int)
    requires low <= |wl| && -1 <= high < |wl|
    ensures r < |wl| && -(|wl| + 1) <= r
    decreases high - low + 1
  {
    if low > high then -(low + 1)
    else
      var mid := (low + high) / 2;
      var cmp := CompareTo(wl[mid], key);
      if cmp < 0 then Search(wl, key, mid + 1, high)
      else if cmp > 0 then Search(wl, key, low, mid - 1)
      else mid
  }

  /** `Collections.binarySearch(wl, key, null)`: on any list, a non-negative answer is a position holding the key. */
  function BinarySearch(wl: seq<string>, key: string): (r: int)
    ensures -(|wl| + 1) <= r < |wl|
    ensures r >= 0 ==> wl[r] == key
  {
    SearchHit(wl, key, 0, |wl| - 1);
    Search(wl, key, 0, |wl| - 1)
  }

  /** A word sits at the insertion point p: everything before p sorts before it, everything from p on after it. */
  predicate InsertionPoint(wl: seq<string>, key: string, p: nat) {
    p <= |wl| &&
    (forall i {:trigger Before(wl[i], key)} :: 0 <= i < p ==> Before(wl[i], key)) &&
    (forall i {:trigger Before(key, wl[i])} :: p <= i < |wl| ==> Before(key, wl[i]))
  }

  /** A non-negative answer is a position holding the key: the search stops only on a comparison of 0. */
  lemma {:induction false} SearchHit(wl: seq<string>, key: string, low: nat, high: int)
    requires low <= |wl| && -1 <= high < |wl|
    ensures var r := Search(wl, key, low, high); r >= 0 ==> wl[r] == key
    decreases high - low + 1
  {
    if low <= high {
      var mid := (low + high) / 2;
      SearchStep(wl, key, low, high);
      SearchHit(wl, key, mid + 1, high);
      SearchHit(wl, key, low, mid - 1);
    }
  }

  /** The loop invariant of the search: everything left of `low` sorts before the key and everything right of `high` after it. */
  predicate Bracketed(wl: seq<string>, key: string, low: nat, high: int) {
    (forall i {:trigger Before(wl[i], key)} :: 0 <= i < low && i < |wl| ==> Before(wl[i], key)) &&
    (forall i {:trigger Before(key, wl[i])} :: high < i < |wl| && 0 <= i ==> Before(key, wl[i]))
  }

  /** The search keeps its loop invariant, so a negative answer encodes the insertion point. */
  lemma {:induction false} SearchMiss(wl: seq<string>, key: string, low: nat, high: int)
    requires Sorted(wl)
    requires low <= |wl| && -1 <= high < |wl| && low <= high + 1
    requires Bracketed(wl, key, low, high)
    ensures var r := Search(wl, key, low, high); r < 0 ==> InsertionPoint(wl, key, -(r + 1))
    decreases high - low + 1
  {
    if low <= high {
      var mid := (low + high) / 2;
      var cmp := CompareTo(wl[mid], key);
      SearchStep(wl, key, low, high);
      if cmp < 0 {
        BeforeKey(wl, key, low, high);
        SearchMiss(wl, key, mid + 1, high);
      } else if cmp > 0 {
        AfterKey(wl, key, low, high);
        SearchMiss(wl, key, low, mid - 1);
      }
    } else {
      assert InsertionPoint(wl, key, low);
    }
  }

  /** One probe of the search: it continues right of the middle, left of it, or answers it. */
  lemma SearchStep(wl: seq<string>, key: string, low: nat, high: int)
    requires low <= high < |wl|
    ensures var mid := (low + high) / 2;
      var cmp := CompareTo(wl[mid], key);
      Search(wl, key, low, high) ==
        if cmp < 0 then Search(wl, key, mid + 1, high)
        else if cmp > 0 then Search(wl, key, low, mid - 1)
        else mid
  {
  }

  /** When the middle word sorts before the key, the search may move right of it. */
  lemma BeforeKey(wl: seq<string>, key: string, low: nat, high: int)
    requires Sorted(wl) && low <= high < |wl| && Bracketed(wl, key, low, high)
    requires Before(wl[(low + high) / 2], key)
    ensures Bracketed(wl, key, (low + high) / 2 + 1, high)
  {
    var mid := (low + high) / 2;
    forall i | 0 <= i < mid ensures Before(wl[i], key) {
      BeforeTransitive(wl[i], wl[mid], key);
    }
  }

  /** When the middle word sorts after the key, the search may move left of it. */
  lemma AfterKey(wl: seq<string>, key: string, low: nat, high: int)
    requires Sorted(wl) && low <= high < |wl| && Bracketed(wl, key, low, high)
    requires CompareTo(wl[(low + high) / 2], key) > 0
    ensures Bracketed(wl, key, low, (low + high) / 2 - 1)
  {
    var mid := (low + high) / 2;
    CompareToSwap(wl[mid], key);
    forall i | mid < i < |wl| ensures Before(key, wl[i]) {
      BeforeTransitive(key, wl[mid], wl[i]);
    }
  }

  /** The first position of a word in the list, found by walking it: the reference for the binary search. */
  function Position(wl: seq<string>, key: string): (r: nat)
    requires key in wl
    ensures r < |wl| && wl[r] == key
    ensures forall i :: 0 <= i < r ==> wl[i] != key
  {
    if wl[0] == key then 0 else 1 + Position(wl[1..], key)
  }

  /** No word of a sorted list is before or after itself, so each word occurs once. */
  lemma SortedUnique(wl: seq<string>, i: nat, j: nat)
    requires Sorted(wl) && i < |wl| && j < |wl| && wl[i] == wl[j]
    ensures i == j
  {
    assert CompareTo(wl[i], wl[j]) == 0;
    assert i < j ==> Before(wl[i], wl[j]);
    assert j < i ==> Before(wl[j], wl[i]);
  }

  /**
   * On a sorted list the binary search answers the word's position exactly
   * when the word is in the list, and a negative number exactly when it is not.
   */
  lemma BinarySearchCorrect(wl: seq<string>, key: string)
    requires Sorted(wl)
    ensures BinarySearch(wl, key) >= 0 <==> key in wl
    ensures key in wl ==> BinarySearch(wl, key) == Position(wl, key)
    ensures key !in wl ==> InsertionPoint(wl, key, -(BinarySearch(wl, key) + 1))
  {
    var r := BinarySearch(wl, key);
    SearchHit(wl, key, 0, |wl| - 1);
    SearchMiss(wl, key, 0, |wl| - 1);
    if r >= 0 {
      SortedUnique(wl, r, Position(wl, key));
    } else {
      assert CompareTo(key, key) == 0;
      forall i | 0 <= i < |wl| ensures wl[i] != key {
        assert Before(wl[i], key) || Before(key, wl[i]);
      }
    }
  }

  /** Looking up the word at position k of a valid list answers k. */
  lemma SearchOfWordAt(wl: seq<string>, k: nat)
    requires Sorted(wl) && k < |wl|
    ensures BinarySearch(wl, wl[k]) == k
  {
    BinarySearchCorrect(wl, wl[k]);
    SortedUnique(wl, k, Position(wl, wl[k]));
  }
}
