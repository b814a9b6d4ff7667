/** The worked examples of the algorithm module's demonstration block,
    stated as facts about the model. */
module Scenarios {
  import opened Ordering
  import opened Text
  import opened Books
  import opened Catalog
  import opened Recommender

  lemma DemoSortedAscending()
    ensures Ascending([1, 2, 3, 5, 7, 8, 9])
  {
  }

  lemma DemoSameNumbers()
    ensures multiset([1, 2, 3, 5, 7, 8, 9]) == multiset([5, 2, 8, 1, 9, 3, 7])
  {
  }

  /** Merge sort of `[5, 2, 8, 1, 9, 3, 7]` is `[1, 2, 3, 5, 7, 8, 9]`. */
  lemma MergeSortDemo()
    ensures MergeSort([5, 2, 8, 1, 9, 3, 7]) == [1, 2, 3, 5, 7, 8, 9]
  {
    DemoSortedAscending();
    DemoSameNumbers();
    MergeSortIsTheSort([5, 2, 8, 1, 9, 3, 7], [1, 2, 3, 5, 7, 8, 9]);
  }

  /** Binary search for 7 in the odd numbers 1 .. 19 finds index 3. */
  method BinarySearchDemo() returns (r: int)
    ensures r == 3
  {
    var numbers := [1, 3, 5, 7, 9, 11, 13, 15, 17, 19];
    r := BinarySearch(numbers, 7);
    assert numbers[3] == 7;
    assert 0 <= r < |numbers| && numbers[r] == 7;
  }

  function DemoBook(title: string, author: string, genre: string): Book {
    Book(0, Some(title), Some(author), Some(genre), Absent, None)
  }

  /** The three records of the book demonstration, which carry no id. */
  function SampleBooks(): seq<Book> {
    [ DemoBook("Harry Potter", "J.K. Rowling", "Fantasy"),
      DemoBook("1984", "George Orwell", "Fiction"),
      DemoBook("The Hobbit", "J.R.R. Tolkien", "Fantasy") ]
  }

  function SampleByTitle(): seq<Book> {
    [ DemoBook("1984", "George Orwell", "Fiction"),
      DemoBook("Harry Potter", "J.K. Rowling", "Fantasy"),
      DemoBook("The Hobbit", "J.R.R. Tolkien", "Fantasy") ]
  }

  /** The titles of the sample, lowered, in ascending order. */
  lemma SampleByTitleSorted()
    ensures SortedByField(SampleByTitle(), Title)
    ensures var s := SampleByTitle();
      SortKey(s[0], Title) == "1984" && SortKey(s[1], Title) == "harry potter" && SortKey(s[2], Title) == "the hobbit"
  {
    var sorted := SampleByTitle();
    assert SortKey(sorted[0], Title) == "1984";
    assert SortKey(sorted[1], Title) == "harry potter";
    assert SortKey(sorted[2], Title) == "the hobbit";
    assert StrLess("1984", "harry potter") && StrLess("harry potter", "the hobbit");
    StrLessEqIsTotalOrder();
  }

  /** Sorting the sample by title puts "1984" first: digits precede letters. */
  lemma SortBooksDemo()
    ensures MergeSortBooks(SampleBooks(), Title) == SampleByTitle()
  {
    var books, sorted := SampleBooks(), SampleByTitle();
    SampleByTitleSorted();
    forall k ensures Tied(sorted, Title, k) == Tied(books, Title, k) {
    }
    MergeSortBooksIsTheStableSort(books, Title, sorted);
  }

  /** Searching the sorted sample (which `SortBooksDemo` shows is what
      the sort returns) for "1984" by title finds index 0. */
  method BookSearchDemo() returns (r: int)
    ensures r == 0
  {
    var sorted := SampleByTitle();
    SampleByTitleSorted();
    forall i | 0 <= i < 3 ensures Lower(TextField(sorted[i], Title).value) == SortKey(sorted[i], Title) {
    }
    assert Lower("1984") == "1984";
    assert "harry potter" != "1984" && "the hobbit" != "1984";
    r := BinarySearchBooks(sorted, "1984", Title);
  }

  // The recommender demonstration: one Fantasy book borrowed, five
  // candidates.

  function Shelf(id: int, title: string, author: string, genre: string, year: int, copies: int): Book {
    Book(id, Some(title), Some(author), Some(genre), Known(year), Some(copies))
  }

  function HarryPotter(): Book { Shelf(1, "Harry Potter", "J.K. Rowling", "Fantasy", 1997, 3) }
  function NineteenEightyFour(): Book { Shelf(2, "1984", "George Orwell", "Fiction", 1949, 2) }
  function TheHobbit(): Book { Shelf(3, "The Hobbit", "J.R.R. Tolkien", "Fantasy", 1937, 1) }
  function LordOfTheRings(): Book { Shelf(4, "Lord of the Rings", "J.R.R. Tolkien", "Fantasy", 1954, 2) }
  function BraveNewWorld(): Book { Shelf(5, "Brave New World", "Aldous Huxley", "Fiction", 1932, 1) }
  function HungerGames(): Book { Shelf(6, "The Hunger Games", "Suzanne Collins", "Science Fiction", 2008, 4) }

  /** The borrowed copy carries no `available_copies` entry. */
  function Borrowed(): Book {
    Book(1, Some("Harry Potter"), Some("J.K. Rowling"), Some("Fantasy"), Known(1997), None)
  }

  // Each title's words: the lowered title is its words joined by single
  // spaces, and splitting undoes the join.

  lemma HarryPotterWords()
    ensures TitleWords(Borrowed()) == {"harry", "potter"}
  {
    HarryPotterTitle();
    HarryPotterSplit();
    HarryPotterSet();
  }

  lemma HarryPotterTitle()
    ensures TitleWords(Borrowed()) == WordSet("Harry Potter")
  {
  }

  lemma HarryPotterSet()
    ensures (set w | w in ["harry", "potter"]) == {"harry", "potter"}
  {
  }

  lemma HarryPotterSplit()
    ensures Split(Lower("Harry Potter")) == ["harry", "potter"]
  {
    assert Lower("Harry Potter") == Join(["harry", "potter"]);
    HarryPotterJoined();
  }

  lemma HarryPotterJoined()
    ensures Split(Join(["harry", "potter"])) == ["harry", "potter"]
  {
    SplitJoin(["harry", "potter"]);
  }

  lemma NineteenEightyFourWords()
    ensures TitleWords(NineteenEightyFour()) == {"1984"}
  {
    NineteenEightyFourTitle();
    NineteenEightyFourSplit();
    NineteenEightyFourSet();
  }

  lemma NineteenEightyFourTitle()
    ensures TitleWords(NineteenEightyFour()) == WordSet("1984")
  {
  }

  lemma NineteenEightyFourSet()
    ensures (set w | w in ["1984"]) == {"1984"}
  {
  }

  lemma NineteenEightyFourSplit()
    ensures Split(Lower("1984")) == ["1984"]
  {
    assert Lower("1984") == Join(["1984"]);
    NineteenEightyFourJoined();
  }

  lemma NineteenEightyFourJoined()
    ensures Split(Join(["1984"])) == ["1984"]
  {
    SplitJoin(["1984"]);
  }

  lemma TheHobbitWords()
    ensures TitleWords(TheHobbit()) == {"the", "hobbit"}
  {
    TheHobbitTitle();
    TheHobbitSplit();
    TheHobbitSet();
  }

  lemma TheHobbitTitle()
    ensures TitleWords(TheHobbit()) == WordSet("The Hobbit")
  {
  }

  lemma TheHobbitSet()
    ensures (set w | w in ["the", "hobbit"]) == {"the", "hobbit"}
  {
  }

  lemma TheHobbitSplit()
    ensures Split(Lower("The Hobbit")) == ["the", "hobbit"]
  {
    assert Lower("The Hobbit") == Join(["the", "hobbit"]);
    TheHobbitJoined();
  }

  lemma TheHobbitJoined()
    ensures Split(Join(["the", "hobbit"])) == ["the", "hobbit"]
  {
    SplitJoin(["the", "hobbit"]);
  }

  lemma LordOfTheRingsWords()
    ensures TitleWords(LordOfTheRings()) == {"lord", "of", "the", "rings"}
  {
    LordOfTheRingsTitle();
    LordOfTheRingsSplit();
    LordOfTheRingsSet();
  }

  lemma LordOfTheRingsTitle()
    ensures TitleWords(LordOfTheRings()) == WordSet("Lord of the Rings")
  {
  }

  lemma LordOfTheRingsSet()
    ensures (set w | w in ["lord", "of", "the", "rings"]) == {"lord", "of", "the", "rings"}
  {
  }

  lemma LordOfTheRingsSplit()
    ensures Split(Lower("Lord of the Rings")) == ["lord", "of", "the", "rings"]
  {
    assert Lower("Lord of the Rings") == Join(["lord", "of", "the", "rings"]);
    LordOfTheRingsJoined();
  }

  lemma LordOfTheRingsJoined()
    ensures Split(Join(["lord", "of", "the", "rings"])) == ["lord", "of", "the", "rings"]
  {
    SplitJoin(["lord", "of", "the", "rings"]);
  }

  lemma BraveNewWorldWords()
    ensures TitleWords(BraveNewWorld()) == {"brave", "new", "world"}
  {
    BraveNewWorldTitle();
    BraveNewWorldSplit();
    BraveNewWorldSet();
  }

  lemma BraveNewWorldTitle()
    ensures TitleWords(BraveNewWorld()) == WordSet("Brave New World")
  {
  }

  lemma BraveNewWorldSet()
    ensures (set w | w in ["brave", "new", "world"]) == {"brave", "new", "world"}
  {
  }

  lemma BraveNewWorldSplit()
    ensures Split(Lower("Brave New World")) == ["brave", "new", "world"]
  {
    assert Lower("Brave New World") == Join(["brave", "new", "world"]);
    BraveNewWorldJoined();
  }

  lemma BraveNewWorldJoined()
    ensures Split(Join(["brave", "new", "world"])) == ["brave", "new", "world"]
  {
    SplitJoin(["brave", "new", "world"]);
  }

  lemma HungerGamesWords()
    ensures TitleWords(HungerGames()) == {"the", "hunger", "games"}
  {
    HungerGamesTitle();
    HungerGamesSplit();
    HungerGamesSet();
  }

  lemma HungerGamesTitle()
    ensures TitleWords(HungerGames()) == WordSet("The Hunger Games")
  {
  }

  lemma HungerGamesSet()
    ensures (set w | w in ["the", "hunger", "games"]) == {"the", "hunger", "games"}
  {
  }

  lemma HungerGamesSplit()
    ensures Split(Lower("The Hunger Games")) == ["the", "hunger", "games"]
  {
    assert Lower("The Hunger Games") == Join(["the", "hunger", "games"]);
    HungerGamesJoined();
  }

  lemma HungerGamesJoined()
    ensures Split(Join(["the", "hunger", "games"])) == ["the", "hunger", "games"]
  {
    SplitJoin(["the", "hunger", "games"]);
  }

  // Distances and penalties of the five candidates.

  /** No word of "Harry Potter" is in this title. */
  lemma NineteenEightyFourTitleTerm()
    ensures TitlePenalty(Borrowed(), NineteenEightyFour()) == 20.0
  {
    NineteenEightyFourDisjoint();
    TitlePenaltyExtremes(Borrowed(), NineteenEightyFour());
  }

  lemma NineteenEightyFourDisjoint()
    ensures TitleWords(Borrowed()) * TitleWords(NineteenEightyFour()) == {}
  {
    HarryPotterWords();
    NineteenEightyFourWords();
    NineteenEightyFourWordsApart();
  }

  lemma NineteenEightyFourWordsApart()
    ensures {"harry", "potter"} * {"1984"} == {}
  {
  }

  /** No word of "Harry Potter" is in this title. */
  lemma TheHobbitTitleTerm()
    ensures TitlePenalty(Borrowed(), TheHobbit()) == 20.0
  {
    TheHobbitDisjoint();
    TitlePenaltyExtremes(Borrowed(), TheHobbit());
  }

  lemma TheHobbitDisjoint()
    ensures TitleWords(Borrowed()) * TitleWords(TheHobbit()) == {}
  {
    HarryPotterWords();
    TheHobbitWords();
    TheHobbitWordsApart();
  }

  lemma TheHobbitWordsApart()
    ensures {"harry", "potter"} * {"the", "hobbit"} == {}
  {
  }

  /** No word of "Harry Potter" is in this title. */
  lemma LordOfTheRingsTitleTerm()
    ensures TitlePenalty(Borrowed(), LordOfTheRings()) == 20.0
  {
    LordOfTheRingsDisjoint();
    TitlePenaltyExtremes(Borrowed(), LordOfTheRings());
  }

  lemma LordOfTheRingsDisjoint()
    ensures TitleWords(Borrowed()) * TitleWords(LordOfTheRings()) == {}
  {
    HarryPotterWords();
    LordOfTheRingsWords();
    LordOfTheRingsWordsApart();
  }

  lemma LordOfTheRingsWordsApart()
    ensures {"harry", "potter"} * {"lord", "of", "the", "rings"} == {}
  {
    assert "harry"[0] != "rings"[0];
  }

  /** No word of "Harry Potter" is in this title. */
  lemma BraveNewWorldTitleTerm()
    ensures TitlePenalty(Borrowed(), BraveNewWorld()) == 20.0
  {
    BraveNewWorldDisjoint();
    TitlePenaltyExtremes(Borrowed(), BraveNewWorld());
  }

  lemma BraveNewWorldDisjoint()
    ensures TitleWords(Borrowed()) * TitleWords(BraveNewWorld()) == {}
  {
    HarryPotterWords();
    BraveNewWorldWords();
    BraveNewWorldWordsApart();
  }

  lemma BraveNewWorldWordsApart()
    ensures {"harry", "potter"} * {"brave", "new", "world"} == {}
  {
    assert "harry"[0] != "brave"[0];
    assert "harry"[0] != "world"[0];
  }

  /** No word of "Harry Potter" is in this title. */
  lemma HungerGamesTitleTerm()
    ensures TitlePenalty(Borrowed(), HungerGames()) == 20.0
  {
    HungerGamesDisjoint();
    TitlePenaltyExtremes(Borrowed(), HungerGames());
  }

  lemma HungerGamesDisjoint()
    ensures TitleWords(Borrowed()) * TitleWords(HungerGames()) == {}
  {
    HarryPotterWords();
    HungerGamesWords();
    HungerGamesWordsApart();
  }

  lemma HungerGamesWordsApart()
    ensures {"harry", "potter"} * {"the", "hunger", "games"} == {}
  {
    assert "harry"[0] != "games"[0];
    assert "potter"[0] != "hunger"[0];
  }

  /** Every year gap exceeds ten years, so every year term is 15. */
  lemma DemoSimilarities()
    ensures Similarity(Borrowed(), NineteenEightyFour()) == 100.0
    ensures Similarity(Borrowed(), TheHobbit()) == 60.0
    ensures Similarity(Borrowed(), LordOfTheRings()) == 60.0
    ensures Similarity(Borrowed(), BraveNewWorld()) == 100.0
    ensures Similarity(Borrowed(), HungerGames()) == 100.0
  {
    NineteenEightyFourSimilarity();
    TheHobbitSimilarity();
    LordOfTheRingsSimilarity();
    BraveNewWorldSimilarity();
    HungerGamesSimilarity();
  }

  lemma NineteenEightyFourSimilarity()
    ensures Similarity(Borrowed(), NineteenEightyFour()) == 100.0
  {
    NineteenEightyFourGenre();
    NineteenEightyFourAuthor();
    NineteenEightyFourYear();
    NineteenEightyFourTitleTerm();
  }

  lemma NineteenEightyFourGenre()
    ensures GenrePenalty(Borrowed(), NineteenEightyFour()) == 40.0
  {
    assert Lower("Fantasy")[1] != Lower("Fiction")[1];
  }

  lemma NineteenEightyFourAuthor()
    ensures AuthorPenalty(Borrowed(), NineteenEightyFour()) == 25.0
  {
  }

  lemma NineteenEightyFourYear()
    ensures YearPenalty(Borrowed(), NineteenEightyFour()) == 15.0
  {
  }

  lemma TheHobbitSimilarity()
    ensures Similarity(Borrowed(), TheHobbit()) == 60.0
  {
    TheHobbitGenre();
    TheHobbitAuthor();
    TheHobbitYear();
    TheHobbitTitleTerm();
  }

  lemma TheHobbitGenre()
    ensures GenrePenalty(Borrowed(), TheHobbit()) == 0.0
  {
  }

  lemma TheHobbitAuthor()
    ensures AuthorPenalty(Borrowed(), TheHobbit()) == 25.0
  {
  }

  lemma TheHobbitYear()
    ensures YearPenalty(Borrowed(), TheHobbit()) == 15.0
  {
  }

  lemma LordOfTheRingsSimilarity()
    ensures Similarity(Borrowed(), LordOfTheRings()) == 60.0
  {
    LordOfTheRingsGenre();
    LordOfTheRingsAuthor();
    LordOfTheRingsYear();
    LordOfTheRingsTitleTerm();
  }

  lemma LordOfTheRingsGenre()
    ensures GenrePenalty(Borrowed(), LordOfTheRings()) == 0.0
  {
  }

  lemma LordOfTheRingsAuthor()
    ensures AuthorPenalty(Borrowed(), LordOfTheRings()) == 25.0
  {
  }

  lemma LordOfTheRingsYear()
    ensures YearPenalty(Borrowed(), LordOfTheRings()) == 15.0
  {
  }

  lemma BraveNewWorldSimilarity()
    ensures Similarity(Borrowed(), BraveNewWorld()) == 100.0
  {
    BraveNewWorldGenre();
    BraveNewWorldAuthor();
    BraveNewWorldYear();
    BraveNewWorldTitleTerm();
  }

  lemma BraveNewWorldGenre()
    ensures GenrePenalty(Borrowed(), BraveNewWorld()) == 40.0
  {
    assert Lower("Fantasy")[1] != Lower("Fiction")[1];
  }

  lemma BraveNewWorldAuthor()
    ensures AuthorPenalty(Borrowed(), BraveNewWorld()) == 25.0
  {
  }

  lemma BraveNewWorldYear()
    ensures YearPenalty(Borrowed(), BraveNewWorld()) == 15.0
  {
  }

  lemma HungerGamesSimilarity()
    ensures Similarity(Borrowed(), HungerGames()) == 100.0
  {
    HungerGamesGenre();
    HungerGamesAuthor();
    HungerGamesYear();
    HungerGamesTitleTerm();
  }

  lemma HungerGamesGenre()
    ensures GenrePenalty(Borrowed(), HungerGames()) == 40.0
  {
  }

  lemma HungerGamesAuthor()
    ensures AuthorPenalty(Borrowed(), HungerGames()) == 25.0
  {
  }

  lemma HungerGamesYear()
    ensures YearPenalty(Borrowed(), HungerGames()) == 15.0
  {
  }

  /** Availability, the constant popularity penalty, and age. */
  lemma DemoHeuristics()
    ensures Heuristic(NineteenEightyFour(), map[]) == 30
    ensures Heuristic(TheHobbit(), map[]) == 40
    ensures Heuristic(LordOfTheRings(), map[]) == 30
    ensures Heuristic(BraveNewWorld(), map[]) == 40
    ensures Heuristic(HungerGames(), map[]) == 20
  {
  }

  /** A book from 1997 with three copies on the shelf has heuristic 25:
      with no borrow statistics the popularity term is always 15, and a book
      27 years old adds 10. */
  lemma NinetiesBookHeuristic(b: Book)
    requires b.availableCopies == Some(3) && b.year == Known(1997)
    ensures Heuristic(b, map[]) == 25
  {
    assert AvailabilityPenalty(b) == 0 && AgePenalty(b.year) == 10;
  }

  /** Such a candidate therefore costs at least 25, and exactly 25, labelled
      Excellent, when some history book is at distance zero from it. */
  lemma NinetiesBookCost(history: seq<Book>, b: Book)
    requires |history| > 0
    requires b.availableCopies == Some(3) && b.year == Known(1997)
    ensures Score(history, b) >= 25.0
    ensures (exists i :: 0 <= i < |history| && Similarity(history[i], b) == 0.0) ==>
              Score(history, b) == 25.0 && QualityOf(Score(history, b)) == Excellent
  {
    var g := MinSimilarity(history, b);
    var k :| 0 <= k < |history| && g == Similarity(history[k], b);
    NinetiesBookHeuristic(b);
    assert Score(history, b) == g + 25.0;
  }

  function History(): seq<Book> { [Borrowed()] }

  function AllBooks(): seq<Book> {
    [HarryPotter(), NineteenEightyFour(), TheHobbit(), LordOfTheRings(), BraveNewWorld(), HungerGames()]
  }

  /** With a one-book history the cost is that book's distance plus the heuristic. */
  lemma ScoreOfOne(b: Book, c: Book)
    ensures Score([b], c) == Similarity(b, c) + Heuristic(c, map[]) as real
  {
  }

  lemma NineteenEightyFourScore()
    ensures Score(History(), NineteenEightyFour()) == 130.0
  {
    NineteenEightyFourSimilarity();
    DemoHeuristics();
    ScoreOfOne(Borrowed(), NineteenEightyFour());
  }

  lemma TheHobbitScore()
    ensures Score(History(), TheHobbit()) == 100.0
  {
    TheHobbitSimilarity();
    DemoHeuristics();
    ScoreOfOne(Borrowed(), TheHobbit());
  }

  lemma LordOfTheRingsScore()
    ensures Score(History(), LordOfTheRings()) == 90.0
  {
    LordOfTheRingsSimilarity();
    DemoHeuristics();
    ScoreOfOne(Borrowed(), LordOfTheRings());
  }

  lemma BraveNewWorldScore()
    ensures Score(History(), BraveNewWorld()) == 140.0
  {
    BraveNewWorldSimilarity();
    DemoHeuristics();
    ScoreOfOne(Borrowed(), BraveNewWorld());
  }

  lemma HungerGamesScore()
    ensures Score(History(), HungerGames()) == 120.0
  {
    HungerGamesSimilarity();
    DemoHeuristics();
    ScoreOfOne(Borrowed(), HungerGames());
  }

  function Candidates5(): seq<Book> {
    [NineteenEightyFour(), TheHobbit(), LordOfTheRings(), BraveNewWorld(), HungerGames()]
  }

  lemma HistoryIdsDemo()
    ensures HistoryIds(History()) == {1}
  {
    assert Borrowed() in History();
  }

  lemma DemoUnborrowedKept()
    ensures Eligible(History(), Candidates5()) == Candidates5()
  {
    HistoryIdsDemo();
    EligibleKeepsUnborrowed(History(), Candidates5());
  }

  /** The borrowed book (id 1) is skipped; the other five are candidates. */
  lemma DemoEligible()
    ensures Eligible(History(), AllBooks()) == Candidates5()
  {
    HistoryIdsDemo();
    assert AllBooks() == [HarryPotter()] + Candidates5();
    EligibleSkipsOnlyBorrowed(History(), HarryPotter(), Candidates5());
    DemoUnborrowedKept();
  }

  function DemoCandidates(): seq<Candidate> {
    [ Candidate(130.0, NineteenEightyFour()), Candidate(100.0, TheHobbit()),
      Candidate(90.0, LordOfTheRings()), Candidate(140.0, BraveNewWorld()),
      Candidate(120.0, HungerGames()) ]
  }

  function DemoQueue(): seq<Candidate> {
    [ Candidate(90.0, LordOfTheRings()), Candidate(100.0, TheHobbit()),
      Candidate(120.0, HungerGames()), Candidate(130.0, NineteenEightyFour()),
      Candidate(140.0, BraveNewWorld()) ]
  }

  lemma DemoQueueSorted()
    ensures SortedBy(DemoQueue(), Priority, PriorityLe)
  {
  }

  lemma DemoQueueSameEntries()
    ensures multiset(DemoQueue()) == multiset(DemoCandidates())
  {
    var c := DemoCandidates();
    assert DemoQueue() == [c[2], c[1], c[4], c[0], c[3]];
  }

  lemma DemoQueueDistinct()
    ensures DistinctKeys(DemoQueue(), Priority)
  {
  }

  /** The heap holding the five entries, with the costs the lemmas above
      compute, pops them cheapest first. */
  lemma DemoPopOrder()
    ensures MergeSortBy(DemoCandidates(), Priority, PriorityLe) == DemoQueue()
  {
    DemoQueueSorted();
    DemoQueueSameEntries();
    DemoQueueDistinct();
    PriorityLeIsTotalOrder();
    var cands := DemoCandidates();
    MergeSortBySorted(cands, Priority, PriorityLe);
    SortedDistinctUnique(DemoQueue(), MergeSortBy(cands, Priority, PriorityLe), Priority, PriorityLe);
  }

  /** With `top_n=3` the first three pops are kept: "Lord of the Rings" (90),
      "The Hobbit" (100) and "The Hunger Games" (120), all labelled Poor. */
  lemma DemoPicks()
    ensures Annotate(DemoQueue()[..PopCount(3, |DemoQueue()|)]) ==
      [ Pick(LordOfTheRings(), 90.0, Poor), Pick(TheHobbit(), 100.0, Poor),
        Pick(HungerGames(), 120.0, Poor) ]
  {
  }
}
