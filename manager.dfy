/**
 * The two rules of the window class that are logic rather than layout:
 * which books the list shows for the text in the search box, and how the
 * "Add Book" form is checked and turned into a new book.
 */
module Manager {
  import opened Wrappers
  import opened JavaInt
  import opened Text
  import opened Books
  import opened Store

  /** `updateList`: an all-blank search text shows every book, otherwise the search result for the trimmed text. */
  function ShownBooks(books: seq<Book>, searchText: string): seq<Book>
  {
    var q := Trim(searchText);
    if q == "" then books else Matching(books, q)
  }

  /**
   * The show-all rule agrees with searching for the trimmed text, since the
   * empty query matches every book: the shown books are those of the list
   * that match, in list order.
   */
  lemma ShownIsSearchOfTrimmedText(books: seq<Book>, searchText: string)
    ensures ShownBooks(books, searchText) == Matching(books, Trim(searchText))
    ensures forall b :: b in ShownBooks(books, searchText) <==> b in books && Matches(b, Trim(searchText))
  {
    EmptyQueryMatchesAll(books);
    MatchingSpec(books, Trim(searchText));
  }

  /** The labels the genre box offers. */
  const GenreChoices: seq<string> := ["Fiction", "Non-Fiction", "Sci-Fi", "Fantasy", "Mystery", "Biography",
    "History", "Finance", "Autobiography", "Self Help", "Psychology", "Horror", "Romance", "Gothic",
    "Adventure", "Coming-of-Age", "Other"]

  /** The genre text of a new book: the selected labels joined with `", "`. */
  function GenreText(selected: seq<string>): string
  {
    Join(", ", selected)
  }

  /** With labels from the genre box, the genre text is empty exactly when no genre was selected. */
  lemma GenreMissingIffNoneSelected(selected: seq<string>)
    requires forall i :: 0 <= i < |selected| ==> selected[i] in GenreChoices
    ensures GenreText(selected) == "" <==> selected == []
  {
    assert forall i :: 0 <= i < |selected| ==> selected[i] != "";
    JoinEmpty(", ", selected);
  }

  /** What the "Add Book" button does with the form. */
  datatype AddDecision =
    | MissingFields
    | InvalidId
    | AddAuto(name: string, author: string, genre: string)
    | AddExplicit(id: int, name: string, author: string, genre: string)

  /**
   * The form check: blank title, blank author or no genre is refused; then
   * a blank id field means an auto id, and any other id text must parse as
   * an `int`.
   */
  function DecideAdd(idText: string, nameText: string, authorText: string, selected: seq<string>): AddDecision
  {
    var id := Trim(idText);
    var name := Trim(nameText);
    var author := Trim(authorText);
    var genre := GenreText(selected);
    if name == "" || author == "" || genre == "" then MissingFields
    else if id == "" then AddAuto(name, author, genre)
    else match ParseInt(id)
      case None => InvalidId
      case Some(n) => AddExplicit(n, name, author, genre)
  }

  /** The form is refused exactly when the title or the author is all blanks or the genre text is empty. */
  lemma DecideAddRefuses(idText: string, nameText: string, authorText: string, selected: seq<string>)
    ensures DecideAdd(idText, nameText, authorText, selected).MissingFields?
        <==> AllBlank(nameText) || AllBlank(authorText) || GenreText(selected) == ""
  {
    TrimSpec(nameText);
    TrimSpec(authorText);
  }

  /**
   * An accepted form gives a title and an author that are non-empty and
   * neither start nor end with a blank, and the joined genre text.
   */
  lemma DecideAddAcceptedFields(idText: string, nameText: string, authorText: string, selected: seq<string>)
    ensures var r := DecideAdd(idText, nameText, authorText, selected);
      (r.AddAuto? || r.AddExplicit?) ==>
        r.name != "" && !IsBlank(r.name[0]) && !IsBlank(r.name[|r.name| - 1])
        && r.author != "" && !IsBlank(r.author[0]) && !IsBlank(r.author[|r.author| - 1])
        && r.genre == GenreText(selected) && r.genre != ""
  {
    TrimSpec(nameText);
    TrimSpec(authorText);
  }

  /**
   * Past the field check, an all-blank id field asks for an auto id, and
   * any other id text is refused unless it parses as an `int`, which is
   * then the id.
   */
  lemma DecideAddId(idText: string, nameText: string, authorText: string, selected: seq<string>)
    requires !DecideAdd(idText, nameText, authorText, selected).MissingFields?
    ensures var r := DecideAdd(idText, nameText, authorText, selected);
      (r.AddAuto? <==> AllBlank(idText))
      && (r.InvalidId? <==> !AllBlank(idText) && ParseInt(Trim(idText)).None?)
      && (r.AddExplicit? ==> ParseInt(Trim(idText)) == Some(r.id))
  {
    TrimSpec(idText);
  }

  /**
   * The "Add Book" action: check the form, then build the book (taking an
   * auto id or applying the explicit-id rule) and add it to the store. A
   * refused form and an id that does not parse leave the list, the file
   * and the counter as they were. `now` is the creation time text.
   */
  method SubmitAdd(lib: Library, idText: string, nameText: string, authorText: string, selected: seq<string>, now: string)
    returns (r: AddDecision)
    requires lib.Valid()
    modifies lib`books, lib`file, lib.counter
    ensures lib.Valid()
    ensures r == DecideAdd(idText, nameText, authorText, selected)
    ensures r.MissingFields? || r.InvalidId? ==>
      lib.books == old(lib.books) && lib.file == old(lib.file) && lib.counter.next == old(lib.counter.next)
    ensures r.AddAuto? || r.AddExplicit? ==>
      |lib.books| == |old(lib.books)| + 1 && lib.books[..|old(lib.books)|] == old(lib.books)
      && fresh(lib.books[|old(lib.books)|])
      && lib.file == Some(Serialize(Records(lib.books)))
    ensures r.AddAuto? ==>
      FieldsOf(lib.books[|old(lib.books)|]) == Fields(old(lib.counter.next), r.name, r.author, r.genre, now)
      && lib.counter.next == AfterAuto(old(lib.counter.next))
    ensures r.AddExplicit? ==>
      FieldsOf(lib.books[|old(lib.books)|]) == Fields(r.id, r.name, r.author, r.genre, now)
      && lib.counter.next == AfterExplicit(old(lib.counter.next), r.id)
  {
    r := DecideAdd(idText, nameText, authorText, selected);
    if r.AddAuto? {
      var book := new Book.Auto(lib.counter, r.name, r.author, r.genre, now);
      lib.AddBook(book);
    } else if r.AddExplicit? {
      var book := new Book.WithId(lib.counter, r.id, r.name, r.author, r.genre, now);
      lib.AddBook(book);
    }
  }
}
