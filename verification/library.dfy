/**
 The catalogue held for the whole session, and the add, edit and delete
 forms that change it. Each change is followed in the application by a save
 of the whole table to disk; that save is not part of this model.
 */
module LibraryManager {
  import opened Wrappers
  import opened Catalogue

  class Library {
    /** The table's rows, in display order. */
    var books: seq<Book>

    /** A session starts from the rows loaded from disk, or from none. */
    constructor (loaded: seq<Book>)
      ensures books == loaded
    {
      books := loaded;
    }

    /**
     The "Add Book" button: when title, author and genre are non-empty (and
     the year non-zero), one record with the given values is appended at the
     end; otherwise the catalogue is left alone and false reports the
     "fill in all fields" error. The year comes from an input bounded to
     [MinYear, MaxYear].
     */
    method AddBook(title: string, author: string, genre: string, year: int) returns (added: bool)
      requires YearInRange(year)
      modifies this
      ensures added == FieldsFilled(title, author, genre, year)
      ensures added ==> books == old(books) + [Book(title, author, genre, year)]
      ensures !added ==> books == old(books)
      ensures YearsInRange(old(books)) ==> YearsInRange(books)
      ensures AllFilled(old(books)) ==> AllFilled(books)
    {
      added := title != "" && author != "" && genre != "" && year != 0;
      if added {
        books := books + [Book(title, author, genre, year)];
      }
    }

    /**
     The "Update Book" button of the edit form for the selected title: when
     the selection is non-empty and some record has that title, the first
     such record has its four cells overwritten one by one, in place. The new
     text values are not checked; the new year comes from a bounded input.
     */
    method EditBook(selected: string, newTitle: string, newAuthor: string,
                    newGenre: string, newYear: int) returns (updated: bool)
      requires YearInRange(newYear)
      modifies this
      ensures updated <==> selected != "" && exists j :: 0 <= j < |old(books)| && old(books)[j].title == selected
      ensures books == Edited(old(books), selected, newTitle, newAuthor, newGenre, newYear)
      ensures YearsInRange(old(books)) ==> YearsInRange(books)
    {
      if selected == "" {
        return false;
      }
      match FirstIndex(books, selected) {
        case None =>
          updated := false;
        case Some(i) =>
          books := books[i := books[i].(title := newTitle)];
          books := books[i := books[i].(author := newAuthor)];
          books := books[i := books[i].(genre := newGenre)];
          books := books[i := books[i].(year := newYear)];
          updated := true;
      }
      assert YearsInRange(old(books)) ==> YearsInRange(books) by {
        if YearsInRange(old(books)) {
          EditKeepsYearsInRange(old(books), selected, newTitle, newAuthor, newGenre, newYear);
        }
      }
    }

    /**
     The "Delete Book" button: the catalogue is replaced by the rows whose
     title differs from the selected one, so every record with that title
     goes; a title no record carries changes nothing.
     */
    method DeleteBook(selected: string)
      modifies this
      ensures books == Deleted(old(books), selected)
      ensures forall i :: 0 <= i < |books| ==> books[i].title != selected
      ensures YearsInRange(old(books)) ==> YearsInRange(books)
      ensures AllFilled(old(books)) ==> AllFilled(books)
    {
      books := Deleted(books, selected);
    }
  }

  /**
   A session from an empty catalogue: add a book, find it by part of its
   author's name in another case, change its year, delete it, and find
   nothing under its title any more.
   */
  method Session()
  {
    var library := new Library([]);
    var added := library.AddBook("1984", "George Orwell", "Dystopian", 1949);
    assert added;
    var book := Book("1984", "George Orwell", "Dystopian", 1949);
    assert library.books == [book];

    OrwellIsFound(book);
    assert Search(library.books, "orwell") == Some([book]);

    var updated := library.EditBook("1984", "1984", "George Orwell", "Dystopian", 1950);
    assert updated by { assert library.books[0].title == "1984"; }
    EditChangesFirstMatchOnly([book], "1984", 0, "1984", "George Orwell", "Dystopian", 1950);
    assert library.books == [book.(year := 1950)];

    library.DeleteBook("1984");
    assert library.books == [];
    assert Search(library.books, "1984") == Some([]);
  }

  /** "orwell" occurs, ignoring case, in the author "George Orwell". */
  lemma OrwellIsFound(book: Book)
    requires book.author == "George Orwell"
    ensures Matches(book, "orwell")
    ensures Search([book], "orwell") == Some([book])
  {
    assert Text.Lower("George Orwell") == "george orwell";
    assert Text.Lower("orwell") == "orwell";
    assert Text.OccursAt("george orwell", "orwell", 7);
    Text.ContainsIffOccurs("george orwell", "orwell");
    Sequences.FilterSingleton(book, MatchesQuery("orwell"));
  }
}
