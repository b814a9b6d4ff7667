# Smart library system: search, sort and recommendation core in Dafny

This project models `algorithms.py`, the algorithm module of the smart
library system. It covers:

- the integer and book-record binary searches;
- the top-down merge sorts and their merge steps;
- the linear multi-field `simple_search`;
- the best-first ("A*") book recommender, built from
  `calculate_book_similarity` (the cost g), `calculate_heuristic` (the
  estimate h) and `astar_book_recommendations`.

Books are dictionaries in the source. Here they are a `Book` record. Its
`year` field keeps Python's difference between a missing key and a stored
`None`, because that difference changes results: `book.get('year', 2000)`
gives 2000 for a missing year but `None` for a NULL year. The text fields
and `available_copies` are either missing or hold a value; they are never
`None` (see "## Left out").

The Python string behaviour the code relies on is modelled explicitly:

- `lower()`;
- whitespace `split()` with the full `str.isspace` set;
- code-point lexicographic `<`;
- substring `in`;
- `str()` of an integer.

Modules:

- `Ordering`: generic stable merge sort by a key, iterative binary search,
  and "a sorted prefix holds the k lowest" facts.
- `Text`: the Python string operations above.
- `Books`: the record and `str(book.get(field, ''))`.
- `Catalog`: `binary_search`, `binary_search_books`, `merge_sort`, `merge`,
  `merge_sort_books`, `merge_books` and `simple_search`.
- `Recommender`: similarity, heuristic, cost, quality label and the
  recommendation request.
- `Scenarios`: the module's demonstration block, stated as facts.

The heap is modelled by what it returns. Popping `(f_score, book_id, book)`
entries from a min-heap yields them in `(f_score, book_id)` order, so the
pop sequence is a stable sort by that pair, and `top_n` pops are a prefix
of it. Scores are exact reals.

Three consequences of the code are easy to miss:

- Inside the recommender, `all_books_stats` always has an empty
  `borrow_counts`, so every candidate pays the full popularity penalty
  of 15. A same-genre, same-author candidate from 1997 with three copies
  on the shelf therefore has a heuristic of 25, because a 27-year-old
  book adds 10. It costs exactly 25, labelled Excellent, when a history book is
  at distance 0 from it (`Scenarios.NinetiesBookCost`).
- `binary_search_books` returns at the first midpoint that matches, which
  need not be the first matching record. For three records with the same
  title it returns index 1. `Catalog.BinarySearchBooks` therefore promises
  only some matching index.
- The empty-history fallback's `sorted` raises `TypeError` when it has to
  compare a `None` year. The model returns `YearsNotComparable` in exactly
  that case.

## Model

| member | source | states |
|---|---|---|
| Catalog.BinarySearch | algorithms.py:38-56 | The result is -1 or an index holding the target. On an ascending list, -1 is returned exactly when the target does not occur. |
| Ordering.BinarySearchBy | algorithms.py:75-90 | The generic loop behind both searches: the returned index has the target key. If the keys ascend under a strict total order, -1 means no element has that key. The loop invariants say that everything left of `left` is below the target and everything right of `right` is above it. |
| Catalog.BinarySearchBooks | algorithms.py:75-90 | The result is -1 or an index whose lowered field equals the lowered search value. If the records are sorted by the lowered field, -1 means no record matches case-insensitively. |
| Catalog.Merge | algorithms.py:147-170 | The merge holds exactly the elements of both inputs, as a multiset. Merging two ascending lists gives an ascending list. |
| Catalog.MergeSort | algorithms.py:115-129 | The result is a permutation of the input and is ascending. |
| Catalog.MergeSortIsTheSort | algorithms.py:115-129 | Any ascending permutation of the input equals `MergeSort`'s result, so the function is the unique sort of its input. |
| Catalog.AscendingUnique | algorithms.py:115-129 | Two ascending lists with the same elements are equal. |
| Catalog.MergeSortOfAscending | algorithms.py:115-129 | An already ascending list comes back unchanged. |
| Catalog.MergeSortIdempotent | algorithms.py:115-129 | Sorting twice is sorting once. |
| Catalog.MergeBooks | algorithms.py:212-232 | The merge holds both inputs' records. Merging two lists sorted by `str(get(field, '')).lower()` stays sorted. When the left list is sorted by the key, then for every key value the records with that key come out as the left list's then the right list's, each in input order, because ties take the left record. |
| Catalog.MergeBooksOrdered | algorithms.py:216-230 | The same ordering and tie facts, stated about the generic merge with the field key. |
| Catalog.MergeSortBooks | algorithms.py:191-205 | The result is a permutation of the input, sorted by the lowered string key, and stable: records with equal keys keep their input order. |
| Catalog.MergeSortBooksIsTheStableSort | algorithms.py:191-205 | Any sorted arrangement that keeps equal-key records in input order equals `MergeSortBooks`'s result, so the function is the stable sort. |
| Catalog.MergeSortBooksOfSorted | algorithms.py:191-205 | Input already sorted by the key comes back unchanged. |
| Catalog.MergeSortBooksIdempotent | algorithms.py:191-205 | Sorting records twice is sorting once. |
| Ordering.MergeSortBySorted | algorithms.py:191-205 | The generic merge sort's output is sorted under any total order on keys. |
| Ordering.MergeSortByStable | algorithms.py:191-205 | The generic merge sort keeps, for each key, that key's elements in input order. |
| Ordering.MergeByStable | algorithms.py:216-230 | Merging a sorted left list with any right list gives each key's left elements followed by its right elements. |
| Ordering.StableSortUnique | algorithms.py:191-205 | Two sorted sequences that agree on every key's elements, in order, are equal. |
| Ordering.SortedDistinctUnique | algorithms.py:473-478 | With distinct keys, two sorted arrangements of the same multiset are equal. This is why the heap's pop order is determined when book ids are distinct. |
| Catalog.SimpleSearch | algorithms.py:252-271 | The result is a subsequence of the input. Each record occurs in it exactly as often as in the input if its lowered title, author or genre contains the lowered term, and not at all otherwise. |
| Catalog.SimpleSearchEmptyTerm | algorithms.py:252-271 | The empty term matches every record, so the whole list comes back. |
| Catalog.SimpleSearchIgnoresCase | algorithms.py:253 | Searching for a term and for its lowered form gives the same result. |
| Text.ContainsIffOccurs | algorithms.py:258 | The model of Python's `in` on strings holds exactly when the needle occurs at some offset of the haystack. |
| Text.SplitJoin | algorithms.py:316-317 | Splitting the single-space join of non-empty, whitespace-free words gives those words back. |
| Text.SplitWordsOccur | algorithms.py:316-317 | Every word that `split()` returns occurs in the string. |
| Text.StrLessIsStrictTotalOrder | algorithms.py:85 | Python's string `<` is irreflexive, transitive and total. |
| Text.StrLessEqIsTotalOrder | algorithms.py:221 | Python's string `<=` is a total order. |
| Recommender.YearPenalty | algorithms.py:306-313 | The year term is between 0 and 15. |
| Recommender.TitlePenalty | algorithms.py:316-323 | The title term is between 0 and 20. |
| Recommender.TitlePenaltyExtremes | algorithms.py:316-323 | The title term is 20 exactly when the two lowered title word sets share no word. It is 0 exactly when the first title has words and all of them occur in the second. |
| Recommender.Similarity | algorithms.py:295-325 | The similarity is between 0 and 100. |
| Recommender.SimilarityZeroIff | algorithms.py:295-325 | The distance is 0 exactly when all of these hold: genres and authors agree case-insensitively, both years are truthy and equal (a missing year counts as 2000), and the first title's words are a non-empty subset of the second's. |
| Recommender.SimilarityMismatchBounds | algorithms.py:298-303 | A genre mismatch costs at least 40 and an author mismatch at least 25. A book matching both is within 35. |
| Recommender.Heuristic | algorithms.py:347-382 | The heuristic is between 0 and 50 and a multiple of 5. |
| Recommender.HeuristicTiersMonotone | algorithms.py:350-380 | More copies, more borrows and a later known year never raise their penalty. |
| Recommender.HeuristicWithoutBorrowCounts | algorithms.py:440-442 | Inside the recommender, the statistics map is empty. The heuristic is then availability + 15 + age, so it lies between 15 and 50. |
| Recommender.MinOf | algorithms.py:464 | `min` returns an element of the list that is no greater than any other. |
| Recommender.MinSimilarity | algorithms.py:459-464 | g is the similarity to some history book and no greater than the similarity to any of them. |
| Recommender.Score | algorithms.py:459-470 | The cost f = g + h is between 15 and 150. |
| Recommender.QualityMonotone | algorithms.py:483-485 | A larger cost never gives a better label. A cost gets "Excellent" exactly when below 30 and "Poor" exactly when at least 70. |
| Recommender.Eligible | algorithms.py:449-455 | The candidates are a subsequence of the catalog. A record whose id was not borrowed occurs among them exactly as often as in the catalog, and a borrowed one not at all. |
| Recommender.EligibleKeepsUnborrowed | algorithms.py:452-455 | If no id in a list was borrowed, nothing is skipped. |
| Recommender.PopCount | algorithms.py:477 | The pop loop stops after `min(top_n, #entries)` pops, or none when `top_n <= 0`. The count never exceeds the heap's size. |
| Recommender.Recommend | algorithms.py:418-489 | The result is ranked exactly when the history is non-empty. It is the TypeError case exactly when the history is empty and two or more in-stock books include a NULL year. |
| Recommender.RecommendRankedPicks | algorithms.py:449-487 | With a non-empty history, `min(top_n, #eligible)` picks come back. Each is a catalog book whose id was not borrowed, carries its cost and is labelled from it. |
| Recommender.PopOrderEntries | algorithms.py:452-478 | Every popped entry is an eligible book paired with its own cost. |
| Recommender.RecommendRankedOrder | algorithms.py:477-478 | Picks come out strictly increasing in `(f_score, book_id)`. |
| Recommender.PopsStrictlyIncrease | algorithms.py:473-478 | Popping any number of entries from a heap whose entries have distinct ids yields them strictly increasing in `(f_score, book_id)`. |
| Recommender.RecommendRankedLowest | algorithms.py:473-478 | Every eligible book that was not picked ranks after every pick by `(f_score, book_id)`. This is the "best f-score first" promise of the search. |
| Recommender.PoppedAreLowest | algorithms.py:477-478 | A prefix of the sorted queue ranks below every entry whose book was not popped. |
| Recommender.Available | algorithms.py:421 | The in-stock books are a subsequence of the catalog. A record with `available_copies` above 0 (a missing entry counting as 0) occurs in it exactly as often as in the catalog, and any other record not at all. |
| Recommender.AvailableAtLeastTwo | algorithms.py:421-422 | Two or more books are in stock exactly when two catalog positions hold in-stock books. |
| Recommender.RecommendFallbackFails | algorithms.py:418-422 | With an empty history, Python raises exactly when two catalog positions are in stock and an in-stock book has a `None` year. |
| Recommender.PySlice | algorithms.py:422 | `s[:n]` is a prefix of `s`. |
| Recommender.RecommendFallback | algorithms.py:418-422 | With an empty history and no failure, the result has the slice length and every book is in the catalog and in stock. Years never increase along it, and no in-stock book left out is newer than a returned one. Same-year books keep catalog order. |
| Scenarios.BinarySearchDemo | algorithms.py:576-579 | Searching the odd numbers 1..19 for 7 gives index 3. |
| Scenarios.MergeSortDemo | algorithms.py:586-588 | `merge_sort([5, 2, 8, 1, 9, 3, 7])` is `[1, 2, 3, 5, 7, 8, 9]`. |
| Scenarios.SortBooksDemo | algorithms.py:594-601 | Sorting the three sample records by title gives "1984", "Harry Potter", "The Hobbit". |
| Scenarios.BookSearchDemo | algorithms.py:606-608 | Searching the sorted sample for "1984" by title gives index 0. |
| Scenarios.DemoSimilarities | algorithms.py:617-629 | Distances from the borrowed "Harry Potter": 100, 60, 60, 100 and 100. |
| Scenarios.DemoHeuristics | algorithms.py:617-624 | Heuristics: 30, 40, 30, 40 and 20. |
| Scenarios.LordOfTheRingsScore | algorithms.py:617-629 | "Lord of the Rings" costs 90. The other four candidates cost 130, 100, 140 and 120 (`NineteenEightyFourScore` and the other per-book lemmas). |
| Scenarios.DemoEligible | algorithms.py:449-455 | Only the borrowed "Harry Potter" (id 1) is skipped. The other five books, in catalog order, are the candidates. |
| Scenarios.DemoPopOrder | algorithms.py:473-478 | A heap holding those five costs pops 90, 100, 120, 130, 140. |
| Scenarios.DemoPicks | algorithms.py:477-485 | With `top_n = 3`, the picks are "Lord of the Rings" (90), "The Hobbit" (100) and "The Hunger Games" (120), all labelled Poor. |
| Scenarios.NinetiesBookHeuristic | algorithms.py:350-380 | A book from 1997 with three copies has heuristic 0 + 15 + 10 = 25 under the empty statistics map the recommender passes. |
| Scenarios.NinetiesBookCost | algorithms.py:459-485 | Such a candidate costs at least 25 for any history. It costs exactly 25 and is labelled Excellent when a history book is at distance 0 from it. |

## Left out

- `round(f_score, 2)`: scores are exact reals, and the floating-point sums and rounding are not modelled.
- `compare_recommendation_methods`, `compare_search_methods` and every `print`: these are display code.
- The user-preference profile built in `astar_book_recommendations`: `calculate_heuristic` never reads it, so it does not affect the result.
- The `g_scores` default of 50: the loop always runs over a non-empty history, so the default is unreachable.
- `database.py`, `app.py` and `add_sample_data.py` are not part of this model, apart from the schema fact about stored `None` below.
- `Text.Lower` lowers ASCII letters only. Python's `lower()` also folds other Unicode letters.
- `Catalog.BinarySearch` is modelled on integer lists only. The source compares with `==` and `<` on whatever the list holds.
- `Catalog.Merge` and `Catalog.MergeSort` are modelled on integer lists only. The source's `merge` and `merge_sort` compare with `<=` on any list whose elements are comparable. `Ordering.MergeSortBy`, which the book sort uses, covers any key under a total order.
- `Catalog.BinarySearchBooks` requires the field to be a text field present in every record. The source reads only the records at the midpoints it probes. It raises when a probed record lacks the field or holds a non-string, and returns normally when no probed record does. Inputs where an unprobed record lacks the field are therefore outside the model.
- `Recommender.Recommend` requires distinct ids among the candidates. The source only fails when two entries tie on both `f_score` and `book_id`, because it then compares the dictionaries. The requirement is stronger than that failure condition.
- A stored `None` in `title`, `author`, `genre` or `available_copies` is not modelled. The `books` table declares the three text columns `NOT NULL` (database.py:62-64), and every insert and update of `available_copies` writes an integer count. On a stored `None`, Python would behave differently from a missing key: `None == 0` and `None == 1` are both false, so `calculate_heuristic` adds 0 for availability where a missing key adds 20; the fallback's `None > 0` raises `TypeError`; `simple_search`, `binary_search_books` and `calculate_book_similarity` raise `AttributeError` when they call `.lower()` on a `None` text field; and `merge_sort_books` sorts such a record under the key `"none"`, which `str(None).lower()` gives.
- Every book record carries a `book_id`. The recommender indexes `book['book_id']` unconditionally, and only the sort demonstration's records lack one; they are given id 0.
- `Recommender.Recommend` with a non-empty history is not connected to the demonstration data by one end-to-end lemma. The demonstration is covered in steps: the candidates, each candidate's cost, the pop order of those costs, and the top three picks.
- `Recommender.Score` fixes the statistics map to the empty map the recommender always passes. `Recommender.Heuristic` itself takes any map.
