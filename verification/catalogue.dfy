/**
 The book catalogue as a value: an ordered sequence of records with the
 columns Title, Author, Genre and Year, and the pure meaning of the search,
 edit and delete operations on it.
 */
module Catalogue {
  import opened Wrappers
  import opened Sequences
  import opened Text

  /** One row of the catalogue. */
  datatype Book = Book(title: string, author: string, genre: string, year: int)

  /** The bounds both year inputs impose. */
  const MinYear: int := 1800
  const MaxYear: int := 2025

  predicate YearInRange(year: int) {
    MinYear <= year <= MaxYear
  }

  /**
   The add form's check: every text field is non-empty and the year is
   non-zero (a zero year would be false as a Python truth value).
   */
  predicate FieldsFilled(title: string, author: string, genre: string, year: int) {
    title != "" && author != "" && genre != "" && year != 0
  }

  /** Every stored year lies within the bounds of the year inputs. */
  ghost predicate YearsInRange(books: seq<Book>) {
    forall i :: 0 <= i < |books| ==> YearInRange(books[i].year)
  }

  /** Every stored record would pass the add form's check. */
  ghost predicate AllFilled(books: seq<Book>) {
    forall i :: 0 <= i < |books| ==>
      FieldsFilled(books[i].title, books[i].author, books[i].genre, books[i].year)
  }

  // ---------- Search ----------

  /** The query occurs, ignoring case, in the title, the author or the genre. */
  predicate Matches(b: Book, query: string) {
    ContainsIgnoringCase(b.title, query)
    || ContainsIgnoringCase(b.author, query)
    || ContainsIgnoringCase(b.genre, query)
  }

  function MatchesQuery(query: string): Book -> bool {
    (b: Book) => Matches(b, query)
  }

  /**
   The search listing: nothing at all for an empty query, otherwise exactly
   the records that match the query, in catalogue order.
   */
  function Search(books: seq<Book>, query: string): (r: Option<seq<Book>>)
    ensures r.None? <==> query == ""
    ensures r.Some? ==> |r.value| <= |books|
    ensures r.Some? ==> forall i :: 0 <= i < |r.value| ==> r.value[i] in books && Matches(r.value[i], query)
    ensures r.Some? ==> forall i :: 0 <= i < |books| && Matches(books[i], query) ==> books[i] in r.value
  {
    if query == "" then None else Some(Filter(books, MatchesQuery(query)))
  }

  /** Search keeps catalogue order: matches from an earlier part come first. */
  lemma SearchKeepsOrder(front: seq<Book>, back: seq<Book>, query: string)
    requires query != ""
    ensures Search(front + back, query).value == Search(front, query).value + Search(back, query).value
  {
    FilterAppend(front, back, MatchesQuery(query));
  }

  /** Queries that differ only in letter case produce the same listing. */
  lemma SearchIgnoresQueryCase(books: seq<Book>, q1: string, q2: string)
    requires Lower(q1) == Lower(q2)
    ensures Search(books, q1) == Search(books, q2)
  {
    if q1 != "" {
      assert q2 != "" by { assert |q2| == |Lower(q2)| == |Lower(q1)| == |q1|; }
      FilterAgreeing(books, MatchesQuery(q1), MatchesQuery(q2));
    }
  }

  /** A record that passed the add check is listed when its own title is searched. */
  lemma AddedBookIsFound(books: seq<Book>, b: Book)
    requires FieldsFilled(b.title, b.author, b.genre, b.year)
    ensures Search(books + [b], b.title).Some?
    ensures b in Search(books + [b], b.title).value
  {
    ContainsIgnoringCaseSelf(b.title);
    assert (books + [b])[|books|] == b;
  }

  // ---------- Edit ----------

  /** The position of the first record whose title is `title`, if any. */
  function FirstIndex(books: seq<Book>, title: string): (r: Option<nat>)
    ensures r.Some? ==> r.value < |books| && books[r.value].title == title
    ensures r.Some? ==> forall j :: 0 <= j < r.value ==> books[j].title != title
    ensures r.None? ==> forall j :: 0 <= j < |books| ==> books[j].title != title
  {
    if books == [] then None
    else if books[0].title == title then Some(0)
    else match FirstIndex(books[1..], title)
      case None => None
      case Some(i) => Some(i + 1)
  }

  /**
   The catalogue after the edit form is submitted for the selected title: an
   empty selection does nothing, otherwise the first record with that title
   gets the four new values. The new values are not checked for emptiness.
   */
  function Edited(books: seq<Book>, selected: string,
                  title: string, author: string, genre: string, year: int): (r: seq<Book>)
    ensures |r| == |books|
    ensures selected == "" ==> r == books
    ensures (forall j :: 0 <= j < |books| ==> books[j].title != selected) ==> r == books
  {
    if selected == "" then books
    else match FirstIndex(books, selected)
      case None => books
      case Some(i) => books[i := Book(title, author, genre, year)]
  }

  /**
   When record `i` is the first with the selected title, the edit replaces
   that record and leaves every other one, and the length, as they were.
   */
  lemma EditChangesFirstMatchOnly(books: seq<Book>, selected: string, i: nat,
                                  title: string, author: string, genre: string, year: int)
    requires selected != ""
    requires i < |books| && books[i].title == selected
    requires forall j :: 0 <= j < i ==> books[j].title != selected
    ensures Edited(books, selected, title, author, genre, year) == books[i := Book(title, author, genre, year)]
  {
  }

  /** A year taken from the bounded edit input keeps every stored year in range. */
  lemma EditKeepsYearsInRange(books: seq<Book>, selected: string,
                              title: string, author: string, genre: string, year: int)
    requires YearsInRange(books) && YearInRange(year)
    ensures YearsInRange(Edited(books, selected, title, author, genre, year))
  {
  }

  /**
   Unlike adding, editing accepts empty text: a catalogue whose records all
   passed the add check can hold a record with empty fields after an edit.
   */
  lemma EditCanStoreEmptyFields()
    ensures AllFilled([Book("1984", "George Orwell", "Dystopian", 1949)])
    ensures Edited([Book("1984", "George Orwell", "Dystopian", 1949)], "1984", "", "", "", 1949)
            == [Book("", "", "", 1949)]
    ensures !AllFilled(Edited([Book("1984", "George Orwell", "Dystopian", 1949)], "1984", "", "", "", 1949))
  {
    var books := [Book("1984", "George Orwell", "Dystopian", 1949)];
    assert FirstIndex(books, "1984") == Some(0);
    var edited := Edited(books, "1984", "", "", "", 1949);
    assert edited == [Book("", "", "", 1949)];
    assert !FieldsFilled(edited[0].title, edited[0].author, edited[0].genre, edited[0].year);
  }

  // ---------- Delete ----------

  function TitleDiffers(title: string): Book -> bool {
    (b: Book) => b.title != title
  }

  /** The catalogue without any record whose title is `title`, order kept. */
  function Deleted(books: seq<Book>, title: string): (r: seq<Book>)
    ensures |r| <= |books|
    ensures forall i :: 0 <= i < |r| ==> r[i].title != title && r[i] in books
    ensures forall i :: 0 <= i < |books| && books[i].title != title ==> books[i] in r
  {
    Filter(books, TitleDiffers(title))
  }

  /** The Title column, top to bottom. */
  function Titles(books: seq<Book>): (r: seq<string>)
    ensures |r| == |books|
    ensures forall i :: 0 <= i < |books| ==> r[i] == books[i].title
  {
    if books == [] then [] else [books[0].title] + Titles(books[1..])
  }

  /** Deleting a title shortens the catalogue by the number of records carrying it. */
  lemma {:induction false} DeletedCount(books: seq<Book>, title: string)
    ensures |Deleted(books, title)| == |books| - multiset(Titles(books))[title]
  {
    if books != [] {
      DeletedCount(books[1..], title);
      assert Titles(books) == [books[0].title] + Titles(books[1..]);
    }
  }

  /** Deleting keeps the surviving records in their relative order. */
  lemma DeleteKeepsOrder(front: seq<Book>, back: seq<Book>, title: string)
    ensures Deleted(front + back, title) == Deleted(front, title) + Deleted(back, title)
  {
    FilterAppend(front, back, TitleDiffers(title));
  }

  /** Deleting the same title a second time changes nothing. */
  lemma DeleteIdempotent(books: seq<Book>, title: string)
    ensures Deleted(Deleted(books, title), title) == Deleted(books, title)
  {
    FilterIdempotent(books, TitleDiffers(title));
  }

  /** Deleting a title no record carries leaves the catalogue as it was. */
  lemma DeleteAbsentTitle(books: seq<Book>, title: string)
    requires forall i :: 0 <= i < |books| ==> books[i].title != title
    ensures Deleted(books, title) == books
  {
    FilterKeepsAll(books, TitleDiffers(title));
  }

  /** Deleting keeps both catalogue invariants: years in range and filled fields. */
  lemma DeleteKeepsInvariants(books: seq<Book>, title: string)
    ensures YearsInRange(books) ==> YearsInRange(Deleted(books, title))
    ensures AllFilled(books) ==> AllFilled(Deleted(books, title))
  {
  }
}
