/** The best-first ("A*") recommender. A candidate's cost is its smallest
    similarity distance to a book of the user's history (g) plus a heuristic
    penalty (h); the heap of `(f, book_id, book)` entries is modelled by its
    observable pop order, a sort by `(f, book_id)`. Scores are exact reals:
    the source's floating-point rounding is not modelled. */
module Recommender {
  import opened Ordering
  import opened Text
  import opened Books

  /** The year the heuristic measures a book's age from. */
  const CurrentYear := 2024

  function MinReal(a: real, b: real): real { if a <= b then a else b }
  function Abs(n: int): nat { if n < 0 then -n else n }

  // ---------------------------------------------------------------------
  // Similarity g(n): 0 (identical) .. 100 (unrelated)
  // ---------------------------------------------------------------------

  function GenrePenalty(a: Book, b: Book): real {
    if Lower(TextOr(a.genre, "")) != Lower(TextOr(b.genre, "")) then 40.0 else 0.0
  }

  function AuthorPenalty(a: Book, b: Book): real {
    if Lower(TextOr(a.author, "")) != Lower(TextOr(b.author, "")) then 25.0 else 0.0
  }

  /** `book.get('year', 2000)` when it is truthy; `None` and `0` are falsy. */
  function SimilarityYear(y: YearValue): Option<int> {
    match y
    case Absent => Some(2000)
    case Null => None
    case Known(n) => if n == 0 then None else Some(n)
  }

  /** `min(15, 1.5 * |year1 - year2|)` when both years are known, else 15. */
  function YearPenalty(a: Book, b: Book): (p: real)
    ensures 0.0 <= p <= 15.0
  {
    match (SimilarityYear(a.year), SimilarityYear(b.year))
    case (Some(y1), Some(y2)) => MinReal(15.0, 1.5 * (Abs(y1 - y2) as real))
    case _ => 15.0
  }

  function TitleWords(b: Book): set<string> {
    WordSet(TextOr(b.title, ""))
  }

  lemma {:induction false} SubsetCard<T>(a: set<T>, b: set<T>)
    requires a <= b
    ensures |a| <= |b|
    ensures |a| == |b| ==> a == b
    decreases |b|
  {
    if a != b {
      var x :| x in b && x !in a;
      SubsetCard(a, b - {x});
    }
  }

  /** A share of a non-empty set lies between 0 and 1. */
  lemma RatioBounds(part: nat, whole: nat)
    requires 0 < whole && part <= whole
    ensures 0.0 <= (part as real) / (whole as real) <= 1.0
    ensures (part as real) / (whole as real) == 1.0 <==> part == whole
    ensures (part as real) / (whole as real) == 0.0 <==> part == 0
  {
    var q := (part as real) / (whole as real);
    assert q * (whole as real) == part as real;
  }

  /** `20 * (1 - |common| / |words of a's title|)`, or 20 when a's title has
      no words. */
  function TitlePenalty(a: Book, b: Book): (p: real)
    ensures 0.0 <= p <= 20.0
  {
    var w1, w2 := TitleWords(a), TitleWords(b);
    if |w1| > 0 then
      SubsetCard(w1 * w2, w1);
      RatioBounds(|w1 * w2|, |w1|);
      20.0 * (1.0 - (|w1 * w2| as real) / (|w1| as real))
    else 20.0
  }

  /** The title term is 20 exactly when the titles share no word, and 0
      exactly when the first title has words and all of them occur in the
      second. */
  lemma TitlePenaltyExtremes(a: Book, b: Book)
    ensures TitlePenalty(a, b) == 20.0 <==> TitleWords(a) * TitleWords(b) == {}
    ensures TitlePenalty(a, b) == 0.0 <==> |TitleWords(a)| > 0 && TitleWords(a) <= TitleWords(b)
  {
    var w1, w2 := TitleWords(a), TitleWords(b);
    if |w1| > 0 {
      SubsetCard(w1 * w2, w1);
      RatioBounds(|w1 * w2|, |w1|);
      if w1 <= w2 {
        assert w1 * w2 == w1;
      }
      if |w1 * w2| == |w1| {
        assert w1 * w2 == w1;
      }
    } else {
      assert w1 == {};
    }
  }

  /** `calculate_book_similarity(book1, book2)`. */
  function Similarity(a: Book, b: Book): (d: real)
    ensures 0.0 <= d <= 100.0
  {
    GenrePenalty(a, b) + AuthorPenalty(a, b) + YearPenalty(a, b) + TitlePenalty(a, b)
  }

  /** Two books are at distance zero exactly when genre and author agree
      case-insensitively, both years are known and equal, and every word of
      the first title occurs in the second (which must have a word). */
  lemma SimilarityZeroIff(a: Book, b: Book)
    ensures Similarity(a, b) == 0.0 <==>
      && Lower(TextOr(a.genre, "")) == Lower(TextOr(b.genre, ""))
      && Lower(TextOr(a.author, "")) == Lower(TextOr(b.author, ""))
      && SimilarityYear(a.year).Some?
      && SimilarityYear(a.year) == SimilarityYear(b.year)
      && |TitleWords(a)| > 0
      && TitleWords(a) <= TitleWords(b)
  {
    var w1, w2 := TitleWords(a), TitleWords(b);
    if |w1| > 0 {
      SubsetCard(w1 * w2, w1);
      if TitlePenalty(a, b) == 0.0 {
        assert (|w1 * w2| as real) / (|w1| as real) == 1.0;
        assert |w1 * w2| == |w1|;
      }
      if w1 <= w2 {
        assert w1 * w2 == w1;
      }
    }
  }

  /** Mismatching genre alone costs at least 40, mismatching author at least
      25, so a same-genre, same-author book is always nearer (at most 35)
      than a book differing in both (at least 65). */
  lemma SimilarityMismatchBounds(a: Book, b: Book)
    ensures Lower(TextOr(a.genre, "")) != Lower(TextOr(b.genre, "")) ==> Similarity(a, b) >= 40.0
    ensures Lower(TextOr(a.author, "")) != Lower(TextOr(b.author, "")) ==> Similarity(a, b) >= 25.0
    ensures (Lower(TextOr(a.genre, "")) == Lower(TextOr(b.genre, "")) &&
             Lower(TextOr(a.author, "")) == Lower(TextOr(b.author, ""))) ==> Similarity(a, b) <= 35.0
  {
  }

  // ---------------------------------------------------------------------
  // Heuristic h(n): 0 .. 50, in steps of 5
  // ---------------------------------------------------------------------

  /** +20 with no copy on the shelf (a missing entry counts as 0), +10 with one. */
  function AvailabilityPenalty(b: Book): int {
    var available := IntOr(b.availableCopies, 0);
    if available == 0 then 20 else if available == 1 then 10 else 0
  }

  /** +15 never borrowed, +10 under 3 borrows, +5 under 10. */
  function PopularityPenalty(borrowCount: int): int {
    if borrowCount == 0 then 15 else if borrowCount < 3 then 10 else if borrowCount < 10 then 5 else 0
  }

  function AgeTier(age: int): int {
    if age > 50 then 15 else if age > 20 then 10 else if age > 10 then 5 else 0
  }

  /** `book.get('year', 1900)`: a missing year is 1900 (so 124 years old); a
      falsy year (None or 0) costs 10. */
  function AgePenalty(y: YearValue): int {
    match y
    case Absent => AgeTier(CurrentYear - 1900)
    case Null => 10
    case Known(n) => if n == 0 then 10 else AgeTier(CurrentYear - n)
  }

  /** `all_books_stats['borrow_counts'].get(book['book_id'], 0)`. */
  function BorrowCount(b: Book, borrowCounts: map<int, int>): int {
    if b.bookId in borrowCounts then borrowCounts[b.bookId] else 0
  }

  /** `calculate_heuristic(book, _, stats)`; the user-preference argument is
      never read and is not modelled. */
  function Heuristic(b: Book, borrowCounts: map<int, int>): (h: int)
    ensures 0 <= h <= 50
    ensures h % 5 == 0
  {
    AvailabilityPenalty(b) + PopularityPenalty(BorrowCount(b, borrowCounts)) + AgePenalty(b.year)
  }

  /** Each tier moves the way the source intends: more copies, more borrows
      and a more recent (known, non-zero) year never increase the penalty. */
  lemma HeuristicTiersMonotone(copies1: int, copies2: int, borrows1: int, borrows2: int, year1: int, year2: int)
    ensures 0 <= copies1 <= copies2 ==>
              AvailabilityPenalty(Book(0, None, None, None, Absent, Some(copies1)))
                >= AvailabilityPenalty(Book(0, None, None, None, Absent, Some(copies2)))
    ensures 0 <= borrows1 <= borrows2 ==> PopularityPenalty(borrows1) >= PopularityPenalty(borrows2)
    ensures year1 != 0 && year2 != 0 && year1 <= year2 ==> AgePenalty(Known(year1)) >= AgePenalty(Known(year2))
  {
  }

  /** Inside the recommender the borrow-count map is empty, so every
      candidate pays the full popularity penalty of 15. */
  lemma HeuristicWithoutBorrowCounts(b: Book)
    ensures Heuristic(b, map[]) == AvailabilityPenalty(b) + 15 + AgePenalty(b.year)
    ensures 15 <= Heuristic(b, map[]) <= 50
  {
  }

  // ---------------------------------------------------------------------
  // Cost f(n) = g(n) + h(n) and the quality label
  // ---------------------------------------------------------------------

  /** Python's `min` of a non-empty list: an element no greater than any. */
  function MinOf(xs: seq<real>): (m: real)
    requires |xs| > 0
    ensures exists i :: 0 <= i < |xs| && m == xs[i]
    ensures forall i :: 0 <= i < |xs| ==> m <= xs[i]
  {
    if |xs| == 1 then xs[0]
    else
      var tail := xs[1..];
      var rest := MinOf(tail);
      assert forall i :: 1 <= i < |xs| ==> xs[i] == tail[i - 1];
      MinReal(xs[0], rest)
  }

  /** `g_scores`: the distance from each history book to the candidate. */
  function Distances(history: seq<Book>, c: Book): (ds: seq<real>)
    ensures |ds| == |history|
    ensures forall i :: 0 <= i < |history| ==> ds[i] == Similarity(history[i], c)
  {
    seq(|history|, i requires 0 <= i < |history| => Similarity(history[i], c))
  }

  /** `min(g_scores)`: the similarity to the closest book of the history. */
  function MinSimilarity(history: seq<Book>, c: Book): (g: real)
    requires |history| > 0
    ensures exists i :: 0 <= i < |history| && g == Similarity(history[i], c)
    ensures forall i :: 0 <= i < |history| ==> g <= Similarity(history[i], c)
  {
    MinOf(Distances(history, c))
  }

  lemma MinSimilarityInRange(history: seq<Book>, c: Book)
    requires |history| > 0
    ensures 0.0 <= MinSimilarity(history, c) <= 100.0
  {
    var i :| 0 <= i < |history| && MinSimilarity(history, c) == Similarity(history[i], c);
  }

  /** `f_score = g_score + h_score` with no borrow statistics. */
  function Score(history: seq<Book>, c: Book): (f: real)
    requires |history| > 0
    ensures 15.0 <= f <= 150.0
  {
    MinSimilarityInRange(history, c);
    HeuristicWithoutBorrowCounts(c);
    MinSimilarity(history, c) + Heuristic(c, map[]) as real
  }

  datatype Quality = Excellent | Good | Fair | Poor

  /** The `match_quality` label. */
  function QualityOf(f: real): Quality {
    if f < 30.0 then Excellent else if f < 50.0 then Good else if f < 70.0 then Fair else Poor
  }

  function QualityRank(q: Quality): nat {
    match q
    case Excellent => 0
    case Good => 1
    case Fair => 2
    case Poor => 3
  }

  /** A lower cost never gets a worse label, and the thresholds are 30, 50, 70. */
  lemma QualityMonotone(f1: real, f2: real)
    ensures f1 <= f2 ==> QualityRank(QualityOf(f1)) <= QualityRank(QualityOf(f2))
    ensures QualityOf(f1) == Excellent <==> f1 < 30.0
    ensures QualityOf(f1) == Poor <==> f1 >= 70.0
  {
  }

  // ---------------------------------------------------------------------
  // The recommendation request
  // ---------------------------------------------------------------------

  /** A heap entry `(f_score, book_id, book)`. */
  datatype Candidate = Candidate(f: real, book: Book)

  /** A popped entry: the book with its score and label. */
  datatype Pick = Pick(book: Book, score: real, quality: Quality)

  datatype Recommendations =
    /** Empty history: in-stock books, newest first, unannotated. */
    | Newest(books: seq<Book>)
    /** Non-empty history: the lowest-cost candidates, annotated. */
    | Ranked(picks: seq<Pick>)
    /** Empty history and `sorted` had to compare a `None` year: Python
        raises `TypeError`. */
    | YearsNotComparable

  /** The heap's tuple order on `(f_score, book_id)`. */
  function Priority(c: Candidate): (real, int) {
    (c.f, c.book.bookId)
  }

  predicate PriorityLe(x: (real, int), y: (real, int)) {
    x.0 < y.0 || (x.0 == y.0 && x.1 <= y.1)
  }

  predicate PriorityLess(x: (real, int), y: (real, int)) {
    x.0 < y.0 || (x.0 == y.0 && x.1 < y.1)
  }

  lemma PriorityLeIsTotalOrder()
    ensures TotalOrder(PriorityLe)
  {
    forall x: (real, int), y: (real, int) | PriorityLe(x, y) && PriorityLe(y, x) ensures x == y {
      assert x.0 == y.0 && x.1 == y.1;
    }
  }

  function BookIdOf(b: Book): int {
    b.bookId
  }

  function CandidateId(c: Candidate): int {
    c.book.bookId
  }

  function HistoryIds(history: seq<Book>): set<int> {
    set b | b in history :: b.bookId
  }

  /** The candidates not already borrowed (by `book_id`), in catalog order. */
  function Eligible(history: seq<Book>, all: seq<Book>): (r: seq<Book>)
    ensures IsSubsequence(r, all)
    ensures forall b :: b in r <==> b in all && b.bookId !in HistoryIds(history)
    ensures forall b :: multiset(r)[b] == if b.bookId !in HistoryIds(history) then multiset(all)[b] else 0
  {
    if |all| == 0 then []
    else
      var rest := Eligible(history, all[1..]);
      assert all == [all[0]] + all[1..];
      if all[0].bookId in HistoryIds(history) then rest else [all[0]] + rest
  }

  /** Nothing is dropped from a list none of whose ids was borrowed, and a
      borrowed id is dropped wherever it occurs. */
  lemma {:induction false} EligibleSkipsOnlyBorrowed(history: seq<Book>, b: Book, rest: seq<Book>)
    ensures Eligible(history, [b] + rest) ==
      if b.bookId in HistoryIds(history) then Eligible(history, rest) else [b] + Eligible(history, rest)
  {
    assert ([b] + rest)[1..] == rest;
  }

  lemma {:induction false} EligibleKeepsUnborrowed(history: seq<Book>, books: seq<Book>)
    requires forall i :: 0 <= i < |books| ==> books[i].bookId !in HistoryIds(history)
    ensures Eligible(history, books) == books
    decreases |books|
  {
    if |books| > 0 {
      EligibleKeepsUnborrowed(history, books[1..]);
      EligibleSkipsOnlyBorrowed(history, books[0], books[1..]);
      assert books == [books[0]] + books[1..];
    }
  }

  /** The heap entries pushed for `books`, one per book, in order. */
  function Candidates(history: seq<Book>, books: seq<Book>): (cs: seq<Candidate>)
    requires |history| > 0
    ensures |cs| == |books|
    ensures forall i :: 0 <= i < |books| ==> cs[i] == Candidate(Score(history, books[i]), books[i])
  {
    seq(|books|, i requires 0 <= i < |books| => Candidate(Score(history, books[i]), books[i]))
  }

  /** The order in which the heap pops the entries. */
  function PopOrder(history: seq<Book>, all: seq<Book>): seq<Candidate>
    requires |history| > 0
  {
    MergeSortBy(Candidates(history, Eligible(history, all)), Priority, PriorityLe)
  }

  /** How many entries `while heap and len(recs) < top_n` pops. */
  function PopCount(topN: int, size: nat): (n: nat)
    ensures n <= size
  {
    if topN <= 0 then 0 else if topN < size then topN else size
  }

  function Annotate(cs: seq<Candidate>): (ps: seq<Pick>)
    ensures |ps| == |cs|
    ensures forall i :: 0 <= i < |cs| ==> ps[i] == Pick(cs[i].book, cs[i].f, QualityOf(cs[i].f))
  {
    seq(|cs|, i requires 0 <= i < |cs| => Pick(cs[i].book, cs[i].f, QualityOf(cs[i].f)))
  }

  /** `b.get('available_copies', 0) > 0`. */
  predicate InStock(b: Book) {
    IntOr(b.availableCopies, 0) > 0
  }

  function Available(all: seq<Book>): (r: seq<Book>)
    ensures IsSubsequence(r, all)
    ensures forall b :: b in r <==> b in all && InStock(b)
    ensures forall b :: multiset(r)[b] == if InStock(b) then multiset(all)[b] else 0
  {
    if |all| == 0 then []
    else
      var rest := Available(all[1..]);
      assert all == [all[0]] + all[1..];
      if InStock(all[0]) then [all[0]] + rest else rest
  }

  /** The fallback's sort key `x.get('year', 0)`. A `None` year is only ever
      sorted alone (see `YearsClash`), so its stand-in value is never compared. */
  function RecencyKey(b: Book): int {
    match b.year
    case Absent => 0
    case Null => 0
    case Known(n) => n
  }

  /** `reverse=True`: newer first; Python's sort stays stable when reversed. */
  predicate NewerOrSame(a: int, b: int) {
    a >= b
  }

  lemma NewerOrSameIsTotalOrder()
    ensures TotalOrder(NewerOrSame)
  {
  }

  /** `sorted` compares every element of a list of two or more, and comparing
      `None` with anything raises `TypeError`. */
  predicate YearsClash(available: seq<Book>) {
    |available| >= 2 && exists i :: 0 <= i < |available| && available[i].year.Null?
  }

  /** Python's prefix slice `s[:n]`; a negative `n` drops `-n` from the end. */
  function PySlice<T>(s: seq<T>, n: int): (r: seq<T>)
    ensures r <= s
  {
    if n >= 0 then (if n <= |s| then s[..n] else s)
    else if |s| + n >= 0 then s[..|s| + n] else []
  }

  /** No two eligible candidates share a `book_id`: otherwise the heap could
      compare two entries equal on `(f, book_id)` and then compare the book
      dictionaries, which raises `TypeError`. */
  ghost predicate DistinctIds(books: seq<Book>) {
    DistinctKeys(books, BookIdOf)
  }

  /** `astar_book_recommendations(user_borrowed_books, all_books, top_n)`. */
  function Recommend(history: seq<Book>, all: seq<Book>, topN: int): (r: Recommendations)
    requires |history| > 0 ==> DistinctIds(Eligible(history, all))
    ensures r.Ranked? <==> |history| > 0
    ensures r.YearsNotComparable? <==> |history| == 0 && YearsClash(Available(all))
  {
    if |history| == 0 then
      var available := Available(all);
      if YearsClash(available) then YearsNotComparable
      else Newest(PySlice(MergeSortBy(available, RecencyKey, NewerOrSame), topN))
    else
      var queue := PopOrder(history, all);
      Ranked(Annotate(queue[..PopCount(topN, |queue|)]))
  }

  /** The ids of the popped books. */
  ghost function PickedIds(picks: seq<Pick>): set<int> {
    set p | p in picks :: p.book.bookId
  }

  /** With a non-empty history, `min(top_n, #eligible)` books come back
      (none for `top_n <= 0`), each a catalog book the user has not borrowed,
      scored as its nearest similarity plus heuristic and labelled from that
      score. */
  lemma RecommendRankedPicks(history: seq<Book>, all: seq<Book>, topN: int)
    requires |history| > 0 && DistinctIds(Eligible(history, all))
    ensures var picks := Recommend(history, all, topN).picks;
      && |picks| == PopCount(topN, |Eligible(history, all)|)
      && (forall i :: 0 <= i < |picks| ==>
            && picks[i].book in all
            && picks[i].book.bookId !in HistoryIds(history)
            && picks[i].score == Score(history, picks[i].book)
            && picks[i].quality == QualityOf(picks[i].score))
  {
    var queue := PopOrder(history, all);
    var picks := Recommend(history, all, topN).picks;
    PopOrderEntries(history, all);
    forall i | 0 <= i < |picks| ensures picks[i].book in Eligible(history, all) && picks[i].score == Score(history, picks[i].book) {
      assert picks[i].book == queue[i].book && picks[i].score == queue[i].f;
    }
  }

  /** Every heap entry is an eligible book paired with its cost. */
  lemma PopOrderEntries(history: seq<Book>, all: seq<Book>)
    requires |history| > 0
    ensures forall i :: 0 <= i < |PopOrder(history, all)| ==>
      && PopOrder(history, all)[i].book in Eligible(history, all)
      && PopOrder(history, all)[i].f == Score(history, PopOrder(history, all)[i].book)
  {
    var eligible := Eligible(history, all);
    var cands := Candidates(history, eligible);
    var queue := PopOrder(history, all);
    forall i | 0 <= i < |queue| ensures queue[i].book in eligible && queue[i].f == Score(history, queue[i].book) {
      assert queue[i] in multiset(cands);
      CandidateEntry(history, eligible, queue[i]);
    }
  }

  /** A heap entry pushed for `books` is one of them paired with its cost. */
  lemma CandidateEntry(history: seq<Book>, books: seq<Book>, c: Candidate)
    requires |history| > 0 && c in Candidates(history, books)
    ensures c.book in books && c.f == Score(history, c.book)
  {
    var cands := Candidates(history, books);
    var j :| 0 <= j < |cands| && cands[j] == c;
  }

  /** Picks in strictly increasing `(f_score, book_id)` order. */
  predicate PicksIncrease(picks: seq<Pick>) {
    forall i, j :: 0 <= i < j < |picks| ==>
      PriorityLess((picks[i].score, picks[i].book.bookId), (picks[j].score, picks[j].book.bookId))
  }

  /** Popping `n` entries from a heap of candidates with distinct ids yields
      them in strictly increasing `(f_score, book_id)` order. */
  lemma PopsStrictlyIncrease(cands: seq<Candidate>, n: nat)
    requires DistinctKeys(cands, CandidateId) && n <= |cands|
    ensures PicksIncrease(Annotate(MergeSortBy(cands, Priority, PriorityLe)[..n]))
  {
    var queue := MergeSortBy(cands, Priority, PriorityLe);
    var picks := Annotate(queue[..n]);
    PriorityLeIsTotalOrder();
    MergeSortBySorted(cands, Priority, PriorityLe);
    DistinctKeysSubMultiset(queue, cands, CandidateId);
    forall i, j | 0 <= i < j < |picks|
      ensures PriorityLess((picks[i].score, picks[i].book.bookId), (picks[j].score, picks[j].book.bookId))
    {
      assert picks[i].book == queue[i].book && picks[i].score == queue[i].f;
      assert picks[j].book == queue[j].book && picks[j].score == queue[j].f;
      assert PriorityLe(Priority(queue[i]), Priority(queue[j]));
      assert CandidateId(queue[i]) != CandidateId(queue[j]);
    }
  }

  /** The picks come out in strictly increasing `(f_score, book_id)` order:
      the heap's pop order, with ids breaking ties on equal scores. */
  lemma RecommendRankedOrder(history: seq<Book>, all: seq<Book>, topN: int)
    requires |history| > 0 && DistinctIds(Eligible(history, all))
    ensures PicksIncrease(Recommend(history, all, topN).picks)
  {
    var cands := Candidates(history, Eligible(history, all));
    var queue := PopOrder(history, all);
    assert DistinctKeys(cands, CandidateId);
    PopsStrictlyIncrease(cands, PopCount(topN, |queue|));
  }

  /** Popping `n` entries of a sorted queue leaves behind only entries of
      the pool ranking after every popped one. */
  lemma PoppedAreLowest(cands: seq<Candidate>, queue: seq<Candidate>, n: nat)
    requires SortedBy(queue, Priority, PriorityLe) && multiset(queue) == multiset(cands) && n <= |queue|
    ensures forall i, c :: 0 <= i < n && c in cands && c.book.bookId !in PickedIds(Annotate(queue[..n])) ==>
              PriorityLe(Priority(queue[i]), Priority(c))
  {
    var prefix := queue[..n];
    var picks := Annotate(prefix);
    PrefixIsLowest(queue, cands, n, Priority, PriorityLe);
    forall i, c | 0 <= i < n && c in cands && c.book.bookId !in PickedIds(picks)
      ensures PriorityLe(Priority(queue[i]), Priority(c))
    {
      assert queue[i] == prefix[i];
      forall m | 0 <= m < n ensures prefix[m] != c {
        assert picks[m] in picks;
      }
      assert c in multiset(cands) - multiset(prefix);
    }
  }

  /** The picks are the lowest-cost candidates: every eligible book that was
      not picked ranks, by `(f_score, book_id)`, after every pick. */
  lemma RecommendRankedLowest(history: seq<Book>, all: seq<Book>, topN: int)
    requires |history| > 0 && DistinctIds(Eligible(history, all))
    ensures var picks := Recommend(history, all, topN).picks;
      forall i, b :: 0 <= i < |picks| && b in Eligible(history, all) && b.bookId !in PickedIds(picks) ==>
        PriorityLe((picks[i].score, picks[i].book.bookId), (Score(history, b), b.bookId))
  {
    var eligible := Eligible(history, all);
    var cands := Candidates(history, eligible);
    var queue := PopOrder(history, all);
    var n := PopCount(topN, |queue|);
    var picks := Annotate(queue[..n]);
    assert Recommend(history, all, topN).picks == picks;
    PriorityLeIsTotalOrder();
    MergeSortBySorted(cands, Priority, PriorityLe);
    PoppedAreLowest(cands, queue, n);
    forall i, b | 0 <= i < |picks| && b in eligible && b.bookId !in PickedIds(picks)
      ensures PriorityLe((picks[i].score, picks[i].book.bookId), (Score(history, b), b.bookId))
    {
      var k :| 0 <= k < |eligible| && eligible[k] == b;
      assert cands[k] in cands;
      assert picks[i].book == queue[i].book && picks[i].score == queue[i].f;
      assert cands[k] == Candidate(Score(history, b), b);
      assert PriorityLe(Priority(queue[i]), Priority(cands[k]));
    }
  }

    /** Two catalog positions hold in-stock books. */
  predicate TwoInStock(all: seq<Book>) {
    exists i, j :: 0 <= i < j < |all| && InStock(all[i]) && InStock(all[j])
  }

  lemma {:induction false} TwoInStockAvailable(all: seq<Book>)
    requires TwoInStock(all)
    ensures |Available(all)| >= 2
    decreases |all|
  {
    var rest := all[1..];
    var ar := Available(rest);
    var i, j :| 0 <= i < j < |all| && InStock(all[i]) && InStock(all[j]);
    assert all[j] == rest[j - 1];
    if i == 0 {
      assert rest[j - 1] in ar;
    } else {
      assert all[i] == rest[i - 1];
      assert TwoInStock(rest) by {
        assert InStock(rest[i - 1]) && InStock(rest[j - 1]);
      }
      TwoInStockAvailable(rest);
    }
  }

  lemma {:induction false} AvailableTwoInStock(all: seq<Book>)
    requires |Available(all)| >= 2
    ensures TwoInStock(all)
    decreases |all|
  {
    var rest := all[1..];
    var ar := Available(rest);
    if InStock(all[0]) {
      var b := ar[0];
      assert b in ar;
      var j :| 0 <= j < |rest| && rest[j] == b;
      assert all[j + 1] == b;
      assert InStock(all[0]) && InStock(all[j + 1]);
    } else {
      AvailableTwoInStock(rest);
      var i, j :| 0 <= i < j < |rest| && InStock(rest[i]) && InStock(rest[j]);
      assert all[i + 1] == rest[i] && all[j + 1] == rest[j];
      assert InStock(all[i + 1]) && InStock(all[j + 1]);
    }
  }

  /** At least two books are in stock exactly when two catalog positions
      hold in-stock books. */
  lemma AvailableAtLeastTwo(all: seq<Book>)
    ensures |Available(all)| >= 2 <==> TwoInStock(all)
  {
    if TwoInStock(all) {
      TwoInStockAvailable(all);
    }
    if |Available(all)| >= 2 {
      AvailableTwoInStock(all);
    }
  }

  /** With an empty history, Python raises exactly when two or more catalog
      positions hold in-stock books and one of them has a `None` year. */
  lemma RecommendFallbackFails(all: seq<Book>, topN: int)
    ensures Recommend([], all, topN).YearsNotComparable? <==>
      && (exists i, j :: 0 <= i < j < |all| && InStock(all[i]) && InStock(all[j]))
      && (exists i :: 0 <= i < |all| && InStock(all[i]) && all[i].year.Null?)
  {
    AvailableAtLeastTwo(all);
    var available := Available(all);
    if exists i :: 0 <= i < |all| && InStock(all[i]) && all[i].year.Null? {
      var i :| 0 <= i < |all| && InStock(all[i]) && all[i].year.Null?;
      assert all[i] in available;
    }
    if exists i :: 0 <= i < |available| && available[i].year.Null? {
      var i :| 0 <= i < |available| && available[i].year.Null?;
      assert available[i] in all;
    }
  }

  /** Python's length of `s[:n]` for a list of `size` elements. */
  function SliceLength(n: int, size: nat): (m: nat)
    ensures m <= size
  {
    if n >= 0 then (if n <= size then n else size)
    else if size + n >= 0 then size + n else 0
  }

  lemma PySliceIsPrefix<T>(s: seq<T>, n: int)
    ensures PySlice(s, n) == s[..SliceLength(n, |s|)]
  {
  }

  /** The first `m` books of the newest-first sort of `available`: books of
      `available`, years non-increasing, none left out newer than one kept. */
  lemma NewestPrefix(available: seq<Book>, m: nat)
    requires m <= |available|
    ensures var books := MergeSortBy(available, RecencyKey, NewerOrSame)[..m];
      && |books| == m
      && (forall b :: b in books ==> b in available)
      && (forall i, j :: 0 <= i < j < |books| ==> RecencyKey(books[i]) >= RecencyKey(books[j]))
      && multiset(books) <= multiset(available)
      && (forall x, y :: x in books && y in multiset(available) - multiset(books) ==>
            RecencyKey(x) >= RecencyKey(y))
  {
    NewerOrSameIsTotalOrder();
    var sorted := MergeSortBy(available, RecencyKey, NewerOrSame);
    MergeSortBySorted(available, RecencyKey, NewerOrSame);
    var books := sorted[..m];
    PrefixIsLowest(sorted, available, m, RecencyKey, NewerOrSame);
    forall b | b in books ensures b in available {
      assert b in multiset(books);
    }
  }

  /** Books of the same year in that prefix keep their catalog order. */
  lemma NewestPrefixStable(available: seq<Book>, m: nat)
    requires m <= |available|
    ensures var books := MergeSortBy(available, RecencyKey, NewerOrSame)[..m];
      forall k :: WithKey(books, RecencyKey, k) <= WithKey(available, RecencyKey, k)
  {
    NewerOrSameIsTotalOrder();
    var sorted := MergeSortBy(available, RecencyKey, NewerOrSame);
    MergeSortByStableAll(available, RecencyKey, NewerOrSame);
    forall k ensures WithKey(sorted[..m], RecencyKey, k) <= WithKey(available, RecencyKey, k) {
      WithKeyPrefix(sorted, m, RecencyKey, k);
    }
  }

  /** With an empty history and no failure, the result is `s[:top_n]` of the
      in-stock books sorted newest first: its length follows Python's slice
      rule, every book comes from the catalog and is in stock, years never
      increase along it, no in-stock book left out is newer than a returned
      one, and books of the same year keep their catalog order. */
  lemma RecommendFallback(all: seq<Book>, topN: int)
    requires !YearsClash(Available(all))
    ensures var books := Recommend([], all, topN).books;
      && |books| == SliceLength(topN, |Available(all)|)
      && (forall b :: b in books ==> b in all && InStock(b))
      && (forall i, j :: 0 <= i < j < |books| ==> RecencyKey(books[i]) >= RecencyKey(books[j]))
      && multiset(books) <= multiset(Available(all))
      && (forall x, y :: x in books && y in multiset(Available(all)) - multiset(books) ==>
            RecencyKey(x) >= RecencyKey(y))
      && (forall k :: WithKey(books, RecencyKey, k) <= WithKey(Available(all), RecencyKey, k))
  {
    var available := Available(all);
    var sorted := MergeSortBy(available, RecencyKey, NewerOrSame);
    var m := SliceLength(topN, |available|);
    PySliceIsPrefix(sorted, topN);
    assert Recommend([], all, topN).books == sorted[..m];
    NewestPrefix(available, m);
    NewestPrefixStable(available, m);
  }
}
