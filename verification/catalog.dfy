/** The lookup and ordering half of the catalog: binary search, merge sort
    and the linear multi-field search, on plain integer lists and on book
    records keyed by a chosen field. */
module Catalog {
  import opened Ordering
  import opened Text
  import opened Books

  // ---------------------------------------------------------------------
  // Plain lists (Python integers compared with < and <=)
  // ---------------------------------------------------------------------

  function IntId(x: int): int { x }
  predicate IntLe(a: int, b: int) { a <= b }
  predicate IntLess(a: int, b: int) { a < b }

  /** Non-decreasing. */
  ghost predicate Ascending(s: seq<int>) {
    SortedBy(s, IntId, IntLe)
  }

  lemma IntLeIsTotalOrder()
    ensures TotalOrder(IntLe)
  {
  }

  lemma IntLessIsStrictTotalOrder()
    ensures StrictTotalOrder(IntLess)
  {
  }

  /** `binary_search(arr, target)`: -1 or an index holding `target` (any
      matching index, not necessarily the first). On ascending input -1 is
      returned exactly when `target` does not occur. */
  method BinarySearch(arr: seq<int>, target: int) returns (r: int)
    ensures r == -1 || (0 <= r < |arr| && arr[r] == target)
    ensures Ascending(arr) ==> (r == -1 <==> target !in arr)
  {
    IntLessIsStrictTotalOrder();
    r := BinarySearchBy(arr, IntId, target, IntLess);
    if Ascending(arr) {
      assert AscendingBy(arr, IntId, IntLess);
    }
  }

  lemma MergeAscending(left: seq<int>, right: seq<int>)
    ensures Ascending(left) && Ascending(right) ==> Ascending(MergeBy(left, right, IntId, IntLe))
  {
    if Ascending(left) && Ascending(right) {
      IntLeIsTotalOrder();
      MergeBySorted(left, right, IntId, IntLe);
    }
  }

  /** `merge(left, right)`: a rearrangement of `left + right`, ascending when
      both inputs are. */
  function Merge(left: seq<int>, right: seq<int>): (r: seq<int>)
    ensures multiset(r) == multiset(left) + multiset(right)
    ensures Ascending(left) && Ascending(right) ==> Ascending(r)
  {
    MergeAscending(left, right);
    MergeBy(left, right, IntId, IntLe)
  }

  /** `merge_sort(arr)`: an ascending rearrangement of `arr`. */
  function MergeSort(arr: seq<int>): (r: seq<int>)
    ensures multiset(r) == multiset(arr)
    ensures Ascending(r)
  {
    IntLeIsTotalOrder();
    MergeSortBySorted(arr, IntId, IntLe);
    MergeSortBy(arr, IntId, IntLe)
  }

  /** An ascending list, in particular one of length at most one, is
      returned unchanged. */
  lemma MergeSortOfAscending(arr: seq<int>)
    requires Ascending(arr)
    ensures MergeSort(arr) == arr
  {
    assert SortedBy(arr, IntId, IntLe);
    MergeSortByOfSorted(arr, IntId, IntLe);
  }

  lemma MergeSortIdempotent(arr: seq<int>)
    ensures MergeSort(MergeSort(arr)) == MergeSort(arr)
  {
    MergeSortOfAscending(MergeSort(arr));
  }

  lemma AscendingTail(a: seq<int>)
    requires Ascending(a) && |a| > 0
    ensures Ascending(a[1..])
    ensures forall x :: x in multiset(a) ==> a[0] <= x
  {
    forall x | x in multiset(a) ensures a[0] <= x {
      var i :| 0 <= i < |a| && a[i] == x;
      if i > 0 {
        assert a[0] <= a[i];
      }
    }
  }

  /** Two ascending arrangements of the same numbers are the same list. */
  lemma {:induction false} AscendingUnique(a: seq<int>, b: seq<int>)
    requires Ascending(a) && Ascending(b) && multiset(a) == multiset(b)
    ensures a == b
    decreases |a|
  {
    if |a| == 0 {
      assert |multiset(b)| == 0;
    } else {
      assert a == [a[0]] + a[1..];
      assert a[0] in multiset(b);
      assert b == [b[0]] + b[1..];
      assert b[0] in multiset(a);
      AscendingTail(a);
      AscendingTail(b);
      assert a[0] == b[0];
      assert multiset(a) == multiset{a[0]} + multiset(a[1..]);
      assert multiset(b) == multiset{b[0]} + multiset(b[1..]);
      assert multiset(a[1..]) == multiset(a) - multiset{a[0]};
      assert multiset(b[1..]) == multiset(b) - multiset{b[0]};
      AscendingUnique(a[1..], b[1..]);
    }
  }

  /** Any ascending rearrangement of `arr` is `MergeSort(arr)`. */
  lemma MergeSortIsTheSort(arr: seq<int>, other: seq<int>)
    requires Ascending(other) && multiset(other) == multiset(arr)
    ensures other == MergeSort(arr)
  {
    AscendingUnique(other, MergeSort(arr));
  }

  // ---------------------------------------------------------------------
  // Books keyed by a field
  // ---------------------------------------------------------------------

  /** The key projection `str(book.get(field, '')).lower()` as a function value. */
  function KeyOf(f: Field): Book -> string {
    b => SortKey(b, f)
  }

  /** Ascending by the lowered text of field `f`, as the merge sort leaves it. */
  ghost predicate SortedByField(books: seq<Book>, f: Field) {
    SortedBy(books, KeyOf(f), StrLessEq)
  }

  /** The books of `s` whose key for `f` is `k`, in their order in `s`. */
  ghost function Tied(s: seq<Book>, f: Field, k: string): seq<Book> {
    WithKey(s, KeyOf(f), k)
  }

  /** `binary_search_books(books, value, field)`. The field is read with
      `book[field].lower()`, so it must be a text field present in every
      record. The result is -1 or an index whose lowered field equals the
      lowered search value; on input sorted by that key, -1 means no record
      matches. */
  method BinarySearchBooks(books: seq<Book>, value: string, f: Field) returns (r: int)
    requires f.Title? || f.Author? || f.Genre?
    requires forall i :: 0 <= i < |books| ==> TextField(books[i], f).Some?
    ensures r == -1 || (0 <= r < |books| && Lower(TextField(books[r], f).value) == Lower(value))
    ensures SortedByField(books, f) ==>
              (r == -1 <==> forall i :: 0 <= i < |books| ==> Lower(TextField(books[i], f).value) != Lower(value))
  {
    StrLessIsStrictTotalOrder();
    r := BinarySearchBy(books, KeyOf(f), Lower(value), StrLess);
    if SortedByField(books, f) {
      forall i, j | 0 <= i < j < |books| ensures !StrLess(SortKey(books[j], f), SortKey(books[i], f)) {
        var a, b := SortKey(books[i], f), SortKey(books[j], f);
        if a != b {
          assert StrLess(a, b);
          if StrLess(b, a) {
            StrLessTransitive(a, b, a);
            StrLessIrreflexive(a);
          }
        } else {
          StrLessIrreflexive(a);
        }
      }
      assert AscendingBy(books, KeyOf(f), StrLess);
    }
  }

  lemma MergeBooksOrdered(left: seq<Book>, right: seq<Book>, f: Field)
    ensures SortedByField(left, f) && SortedByField(right, f) ==>
              SortedByField(MergeBy(left, right, KeyOf(f), StrLessEq), f)
    ensures SortedByField(left, f) ==>
              forall k :: Tied(MergeBy(left, right, KeyOf(f), StrLessEq), f, k) == Tied(left, f, k) + Tied(right, f, k)
  {
    StrLessEqIsTotalOrder();
    if SortedByField(left, f) {
      assert SortedBy(left, KeyOf(f), StrLessEq);
      if SortedByField(right, f) {
        MergeBySorted(left, right, KeyOf(f), StrLessEq);
      }
      forall k ensures Tied(MergeBy(left, right, KeyOf(f), StrLessEq), f, k) == Tied(left, f, k) + Tied(right, f, k) {
        MergeByStable(left, right, KeyOf(f), StrLessEq, k);
      }
    }
  }

  /** `merge_books(left, right, field)`: a rearrangement of `left + right`,
      sorted when both inputs are; on equal keys the left record is taken
      first, so the records of each key are those of `left` then those of
      `right`. */
  function MergeBooks(left: seq<Book>, right: seq<Book>, f: Field): (r: seq<Book>)
    ensures multiset(r) == multiset(left) + multiset(right)
    ensures SortedByField(left, f) && SortedByField(right, f) ==> SortedByField(r, f)
    ensures SortedByField(left, f) ==> forall k :: Tied(r, f, k) == Tied(left, f, k) + Tied(right, f, k)
  {
    MergeBooksOrdered(left, right, f);
    MergeBy(left, right, KeyOf(f), StrLessEq)
  }

  /** `merge_sort_books(books, field)`: a rearrangement of `books`, ascending
      by the lowered text of the field, and stable: the records sharing a
      key keep their input order. */
  function MergeSortBooks(books: seq<Book>, f: Field): (r: seq<Book>)
    ensures multiset(r) == multiset(books)
    ensures SortedByField(r, f)
    ensures forall k :: Tied(r, f, k) == Tied(books, f, k)
  {
    StrLessEqIsTotalOrder();
    MergeSortBySorted(books, KeyOf(f), StrLessEq);
    MergeSortByStableAll(books, KeyOf(f), StrLessEq);
    MergeSortBy(books, KeyOf(f), StrLessEq)
  }

  /** Records already sorted by the field (in particular any list of at most
      one record) are returned unchanged, so sorting is idempotent. */
  lemma MergeSortBooksOfSorted(books: seq<Book>, f: Field)
    requires SortedByField(books, f)
    ensures MergeSortBooks(books, f) == books
  {
    assert SortedBy(books, KeyOf(f), StrLessEq);
    MergeSortByOfSorted(books, KeyOf(f), StrLessEq);
  }

  lemma MergeSortBooksIdempotent(books: seq<Book>, f: Field)
    ensures MergeSortBooks(MergeSortBooks(books, f), f) == MergeSortBooks(books, f)
  {
    MergeSortBooksOfSorted(MergeSortBooks(books, f), f);
  }

  /** Any sorted, stable rearrangement of `books` is `MergeSortBooks(books, f)`. */
  lemma MergeSortBooksIsTheStableSort(books: seq<Book>, f: Field, other: seq<Book>)
    requires SortedByField(other, f)
    requires forall k :: Tied(other, f, k) == Tied(books, f, k)
    ensures other == MergeSortBooks(books, f)
  {
    StrLessEqIsTotalOrder();
    var r := MergeSortBooks(books, f);
    assert SortedBy(other, KeyOf(f), StrLessEq);
    assert SortedBy(r, KeyOf(f), StrLessEq);
    forall k ensures WithKey(other, KeyOf(f), k) == WithKey(r, KeyOf(f), k) {
      assert Tied(other, f, k) == Tied(books, f, k);
      assert Tied(r, f, k) == Tied(books, f, k);
    }
    StableSortUnique(other, r, KeyOf(f), StrLessEq);
  }

  // ---------------------------------------------------------------------
  // Linear multi-field search
  // ---------------------------------------------------------------------

  /** The record's lowered title, author or genre (missing counts as '')
      contains the lowered search term. */
  predicate Matches(b: Book, term: string) {
    var t := Lower(term);
    || Contains(Lower(TextOr(b.title, "")), t)
    || Contains(Lower(TextOr(b.author, "")), t)
    || Contains(Lower(TextOr(b.genre, "")), t)
  }

  /** `simple_search(books, search_term)`: the records matching the term, in
      input order, each input position kept at most once however many of its
      fields match. */
  function SimpleSearch(books: seq<Book>, term: string): (r: seq<Book>)
    ensures IsSubsequence(r, books)
    ensures forall b :: multiset(r)[b] == if Matches(b, term) then multiset(books)[b] else 0
  {
    if |books| == 0 then []
    else
      var b := books[0];
      var t := Lower(term);
      var rest := SimpleSearch(books[1..], term);
      assert books == [b] + books[1..];
      if Contains(Lower(TextOr(b.title, "")), t) then [b] + rest
      else if Contains(Lower(TextOr(b.author, "")), t) then [b] + rest
      else if Contains(Lower(TextOr(b.genre, "")), t) then [b] + rest
      else rest
  }

  /** An empty search term is contained in every string, so every record is
      returned, in order. */
  lemma {:induction false} SimpleSearchEmptyTerm(books: seq<Book>)
    ensures SimpleSearch(books, "") == books
  {
    if |books| > 0 {
      SimpleSearchEmptyTerm(books[1..]);
      assert Contains(Lower(TextOr(books[0].title, "")), Lower(""));
    }
  }

  /** The search is case-insensitive in the term. */
  lemma {:induction false} SimpleSearchIgnoresCase(books: seq<Book>, term: string)
    ensures SimpleSearch(books, term) == SimpleSearch(books, Lower(term))
  {
    LowerIdempotent(term);
    if |books| > 0 {
      SimpleSearchIgnoresCase(books[1..], term);
    }
  }
}
