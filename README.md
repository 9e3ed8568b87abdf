# Library Book Manager: the record store and its line codec

A Dafny model of the logic of the Library Book Manager desktop application
(`LibraryBookManager.java`). It covers:

- **Books** (`books.dfy`, module `Books`):
  - the id counter shared by every book;
  - the two `Book` constructors that advance it;
  - the codec that writes a book as one `|`-separated line (`toDataString`) and reads one back (`fromString`).
- **The store** (`store.dfy`, module `Store`): class `Library`, an ordered list of books changed in place.
  - It adds, removes, searches and sorts books.
  - It loads its list from the file `library_books.txt` and saves it back after every add and every successful remove.
- **Two rules of the window class** (`manager.dfy`, module `Manager`):
  - which books the list shows for the search-box text;
  - how the "Add Book" form is checked and turned into a book.
- **Java library behaviour the code depends on**, written out:
  - `java_int.dfy`: 32-bit `int` wrap-around, `Integer.toString`, `Integer.parseInt`;
  - `text.dfy`: `String.split`, `BufferedReader.readLine`, `trim`, `toLowerCase`, `contains`, `compareTo`, `String.join`.

Modelling choices:

- `Book` is a class with `const` fields. `ArrayList.remove(Object)` finds the book to remove with `equals`, which `Book` does not override, so removal compares object references, as in the original.
- The static `idCounter` is an `IdCounter` object. The `Library` holds it, and every constructor of books receives it.
- The counter is a Java `int`. `id + 1` and `idCounter++` wrap around at `2147483647`, so the ordering lemmas about ids assume that no step reaches that value. `MaxIdDoesNotAdvanceCounter` shows what happens otherwise.
- The file is the field `file: Option<string>`, holding the whole content of `library_books.txt`. `None` stands for a file that is missing or cannot be opened, which `load` treats as an empty file.
- `Integer.parseInt` throws `NumberFormatException` on a bad id in a five-part line, and `load` does not catch it. The model:
  - `Book.FromString` returns `NumberFormatError`;
  - `Library.Load` stops and returns `false`;
  - `Library.Open`, which stands for `new Library()`, returns `null`, and the counter keeps the steps taken before the bad line.
- `List.sort` is specified by `SortBy`, a stable insertion sort. `SortByUnique` proves that any sorted and stable rearrangement gives the same list, so the choice of algorithm makes no difference.

## Model

| member | source | states |
|---|---|---|
| `JavaInt.Wrap` | LibraryBookManager.java:20 | Java `int` arithmetic: the result stays in range, is exact when no overflow occurs, and `2147483647 + 1` gives `-2147483648` |
| `JavaInt.ParseInt` | LibraryBookManager.java:29 | `Integer.parseInt` accepts only text whose value fits in an `int`, and a negative result needs a leading minus sign |
| `JavaInt.ParseIntAccepts` | LibraryBookManager.java:29 | an optional `-` or `+` followed by one or more digits parses to the signed value of the digits when it fits in an `int`, and is rejected when it does not |
| `JavaInt.ParseIntRejectsNonDigit` | LibraryBookManager.java:29 | a text with a character that is neither a digit nor a leading sign is rejected |
| `JavaInt.ParseIntRejectsNoDigit` | LibraryBookManager.java:29 | a text with no digit at all (empty, or a lone sign) is rejected |
| `JavaInt.IntToString` | LibraryBookManager.java:33 | string concatenation of an `int` writes a minus sign exactly when the number is negative, and only digits after the first character; `ParseIntRoundTrip` reads it back |
| `JavaInt.IntToStringDigits` | LibraryBookManager.java:33 | after the sign come the decimal digits of the magnitude, without leading zeros |
| `JavaInt.ParseIntRoundTrip` | LibraryBookManager.java:29-33 | every `int` written by `toDataString` is read back to the same value by `parseInt` |
| `Text.Split` | LibraryBookManager.java:28 | `split` on `|`: the text itself when it has no `|`, otherwise the pieces between delimiters with trailing empty strings dropped; `SplitOfJoined` and `SplitDropsEmptyLast` relate it to `Join` |
| `Text.IndexOfAny` | LibraryBookManager.java:28 | finds the first delimiter position: no delimiter before it, and a delimiter there unless it is the end |
| `Text.DropTrailingEmpty` | LibraryBookManager.java:28 | `split` drops trailing empty strings: the result is a prefix, it does not end in an empty string, and only empty strings were removed |
| `Text.PiecesOfJoined` | LibraryBookManager.java:28-33 | cutting a `|`-join at every delimiter, before `split` drops trailing empty strings, gives back the parts when no part contains `|` |
| `Text.SplitOfJoined` | LibraryBookManager.java:28-33 | `split` gives back the parts of a `|`-join when no part contains `|` and the last of several parts is not empty |
| `Text.SplitDropsEmptyLast` | LibraryBookManager.java:28-33 | with an empty last part, `split` of the join loses the trailing empty parts, so the parts do not come back |
| `Text.ReadLines` | LibraryBookManager.java:75 | the lines `readLine` returns one after another, ending at `\n`, `\r` or `\r\n`, with no empty line after a final terminator; `ReadLinesOfLine` states how a written line is read |
| `Text.ReadLinesOfLine` | LibraryBookManager.java:75 | `readLine` returns a line written with a trailing newline, and the rest of the file is read after it |
| `Text.Trim` | LibraryBookManager.java:188 | `trim` drops the characters up to the space at both ends; `TrimSlice` and `TrimSpec` state it |
| `Text.TrimSlice` | LibraryBookManager.java:188 | `trim` gives the slice of the text that starts after its leading blanks and is followed only by blanks |
| `Text.TrimSpec` | LibraryBookManager.java:188 | what `trim` leaves has no blank at either end, and is empty exactly when the text is all blanks |
| `Text.Lower` | LibraryBookManager.java:60-61 | `toLowerCase` maps each character to its lower case, keeping the length |
| `Text.Contains` | LibraryBookManager.java:60-61 | `contains`: the needle is a prefix of the text or of one of its suffixes; `ContainsAt` states it by position |
| `Text.ContainsAt` | LibraryBookManager.java:60-61 | `contains` holds exactly when the needle occurs at some position of the text |
| `Text.LexLeq` | LibraryBookManager.java:66-68 | `compareTo(...) <= 0`: a prefix comes first, otherwise the first differing character decides; the three lemmas below show it is a total order |
| `Text.LexLeqTotal` | LibraryBookManager.java:66-68 | any two strings are ordered one way or the other by `compareTo` |
| `Text.LexLeqTransitive` | LibraryBookManager.java:66-68 | the `compareTo` order is transitive |
| `Text.LexLeqAntisymmetric` | LibraryBookManager.java:66-68 | strings ordered both ways by `compareTo` are equal |
| `Text.Join` | LibraryBookManager.java:189 | `String.join`: the parts with the separator between each two of them, and the empty text for no parts; `JoinEmpty` and `PiecesOfJoined` relate it to its parts |
| `Books.IdCounter.constructor` | LibraryBookManager.java:10 | the counter starts at 1 |
| `Books.Book.WithId` | LibraryBookManager.java:14-21 | the book carries exactly the given fields, and the counter becomes `max(counter, id + 1)` |
| `Books.Book.Auto` | LibraryBookManager.java:23-25 | the book's id is the counter's old value, and the counter then follows the post-increment and the explicit-id rule |
| `Books.AfterAutoIncrements` | LibraryBookManager.java:24 | below `2147483647`, taking an auto id leaves the counter exactly one higher |
| `Books.AfterAutoWraps` | LibraryBookManager.java:24 | taking the auto id `2147483647` wraps the counter to `-2147483648` |
| `Books.AfterExplicitBounds` | LibraryBookManager.java:20 | an explicit id below `2147483647` leaves the counter above that id and never lowers it |
| `Books.ParseLine` | LibraryBookManager.java:27-30 | a line is skipped exactly when its `|`-split does not have 5 parts, and a parsed id is an `int` |
| `Books.Book.FromString` | LibraryBookManager.java:27-30 | each case of the line: no book and no counter change for a wrong arity; an exception and no counter change for a bad id; otherwise a new book with the parsed fields, built through the explicit-id rule |
| `Books.ToDataString` | LibraryBookManager.java:32-34 | `toDataString`: the five fields joined by `|`, the id written by `Integer.toString`; `RoundTrip` is its inverse |
| `Books.PiecesOfDataString` | LibraryBookManager.java:32-34 | the `|`-pieces of a written line are exactly the five fields |
| `Books.RoundTrip` | LibraryBookManager.java:28-33 | `fromString(toDataString(b))` gives the same five fields when no field contains `|` and the date is non-empty |
| `Books.EmptyDateIsSkipped` | LibraryBookManager.java:28-29 | an empty date is a trailing empty field that `split` drops, so the written line is skipped when read |
| `Books.DelimiterInNameBreaksRoundTrip` | LibraryBookManager.java:28-33 | with a non-empty date, a `|` inside the title makes six parts, so the book is not read back |
| `Books.IdsBelowFinalCounter` | LibraryBookManager.java:20-24 | without overflow, every id handed out stays below the counter's final value, and the counter never decreases |
| `Books.AutoIdsExceedEarlierIds` | LibraryBookManager.java:20-24 | without overflow, each auto id is strictly greater than every id handed out before it, explicit ids included |
| `Books.AutoIdsFromCounter` | LibraryBookManager.java:24 | without overflow, every later auto id is at least the starting counter |
| `Books.AutoIdsIncrease` | LibraryBookManager.java:24 | successive auto ids are consecutive while no overflow occurs |
| `Books.FreshCounterScenario` | LibraryBookManager.java:10-24 | from a fresh counter: an auto id gets 1, the explicit id 5 moves the counter to 6, and the next auto id is 6 |
| `Books.MaxIdDoesNotAdvanceCounter` | LibraryBookManager.java:20 | the explicit id `2147483647` overflows `id + 1`, so the next auto id, 1, is below it |
| `Store.Library.Init` | LibraryBookManager.java:42-43 | a new store starts with an empty list, before `load` |
| `Store.Library.Open` | LibraryBookManager.java:45 | the constructor's `load`: the list holds the file's records as new book objects, the counter has taken a step for each, and a bad id makes the constructor fail |
| `Store.Library.AddBook` | LibraryBookManager.java:47 | the book is appended after the unchanged earlier books, and the file becomes every book's line with a trailing newline, in list order |
| `Store.Library.RemoveBook` | LibraryBookManager.java:49-53 | returns whether the object was in the list; on success removes its first occurrence and resaves; otherwise neither the list nor the file changes |
| `Store.RemoveFirst` | LibraryBookManager.java:50 | `ArrayList.remove(Object)` on values: the list without the first element identical to the book; `RemoveFirstSpec` states it |
| `Store.RemoveFirstSpec` | LibraryBookManager.java:50 | removal takes out exactly the first occurrence and keeps the rest in order, and it changes nothing when the book is absent |
| `Store.RemoveFirstCount` | LibraryBookManager.java:50 | removing a present book shortens the list by one and removes one copy of it from the multiset |
| `Store.Library.Search` | LibraryBookManager.java:57-64 | the result is the matching books in list order, and the list is left untouched |
| `Store.Matching` | LibraryBookManager.java:57-64 | the books whose lower-cased title or genre contains the lower-cased query, in list order; `MatchingSpec` states it |
| `Store.MatchingSpec` | LibraryBookManager.java:57-64 | the search result is a subsequence of the list, and a book is in it exactly when it is in the list and its lower-cased title or genre contains the lower-cased query; a matching book appears as many times as in the list, any other book not at all |
| `Store.EmptyQueryMatchesAll` | LibraryBookManager.java:60-61 | the empty query returns the whole list |
| `Store.MatchingIgnoresQueryCase` | LibraryBookManager.java:60-61 | lower-casing the query does not change the result |
| `Store.Library.SortByAuthor` | LibraryBookManager.java:66 | the list becomes the stable sort by author, and the file is not rewritten |
| `Store.Library.SortByDate` | LibraryBookManager.java:68 | the list becomes the stable sort by date string, and the file is not rewritten |
| `Store.Library.SortById` | LibraryBookManager.java:70 | the list becomes the stable sort by numeric id, and the file is not rewritten |
| `Store.KeyLeqTotal` | LibraryBookManager.java:66-70 | each comparator orders any two books one way or the other |
| `Store.KeyLeqTransitive` | LibraryBookManager.java:66-70 | each comparator's order is transitive |
| `Store.SameKeyIffBothLeq` | LibraryBookManager.java:66-70 | the comparator calls two books equal exactly when each is ordered before the other |
| `Store.SortBy` | LibraryBookManager.java:66-70 | the reference stable sort by one key, by insertion; the lemmas below prove it a stable, sorted permutation and the only one |
| `Store.SortByPermutes` | LibraryBookManager.java:66-70 | sorting gives a permutation of the list |
| `Store.SortBySorted` | LibraryBookManager.java:66-70 | sorting gives a list that is non-decreasing in the key |
| `Store.SortByStable` | LibraryBookManager.java:66-70 | books with equal keys keep their relative order |
| `Store.SortByUnique` | LibraryBookManager.java:66-70 | every sorted, stable rearrangement of the list is the model's sort |
| `Store.Library.LoadLine` | LibraryBookManager.java:76-77 | one pass of the loop: a skipped line changes nothing; a bad id raises and changes nothing; otherwise one new book with the line's fields is appended and the counter takes the explicit-id step |
| `Store.Library.Load` | LibraryBookManager.java:72-80 | the file's lines are read in order, each through `fromString`; lines skipped by the codec are dropped, and the load stops at a bad id; the earlier books stay, the new books are fresh objects, and the counter takes the explicit-id step for each loaded record |
| `Store.LoadLines` | LibraryBookManager.java:72-80 | the records `load` builds from the file's lines, in order, skipping lines of the wrong arity and stopping at a bad id; `SaveThenLoad` relates it to `Serialize` |
| `Store.Library.Save` | LibraryBookManager.java:82-89 | the file is rewritten as every book's line with a trailing newline, in list order |
| `Store.Serialize` | LibraryBookManager.java:82-89 | the text `save` writes: each record's line followed by a newline, in list order; `SerializeAppend` and `SaveThenLoad` state it |
| `Store.SerializeAppend` | LibraryBookManager.java:84-85 | writing one more book appends exactly its line and a newline |
| `Store.SaveThenLoad` | LibraryBookManager.java:72-89 | reading back what `save` wrote gives the same records in the same order, and the load runs to the end, for records without a `|` or line break in a field and with a non-empty date |
| `Store.LoadRaisesCounter` | LibraryBookManager.java:20 | loading never lowers the counter, and leaves it above every loaded id below `2147483647`, whatever other ids the file holds |
| `Store.ThreeFieldLineSkipped` | LibraryBookManager.java:28-29 | a line of three fields, empty ones included, has the wrong arity and is skipped |
| `Store.MalformedLineSkipped` | LibraryBookManager.java:75-77 | a file with one well-formed line and one three-field line loads as exactly one record |
| `Manager.ShownBooks` | LibraryBookManager.java:148-152 | the books the list shows: the whole list for blank search text, else the search result for the trimmed text |
| `Manager.ShownIsSearchOfTrimmedText` | LibraryBookManager.java:148-152 | the show-all rule for blank search text agrees with searching for the trimmed text: the shown books are the matching ones, in list order |
| `Manager.GenreMissingIffNoneSelected` | LibraryBookManager.java:189-190 | with labels from the genre box, the joined genre text is empty exactly when no genre is selected |
| `Manager.DecideAdd` | LibraryBookManager.java:187-205 | the outcome of the add form: missing fields, an invalid id, an auto id or an explicit id, with the trimmed fields; the three lemmas below state it |
| `Manager.DecideAddRefuses` | LibraryBookManager.java:188-193 | the form is refused exactly when the title or the author is all blanks or the joined genre text is empty |
| `Manager.DecideAddAcceptedFields` | LibraryBookManager.java:188-198 | an accepted title and author are non-empty with no blank at either end, and the genre is the non-empty joined text |
| `Manager.DecideAddId` | LibraryBookManager.java:196-205 | past the field check, an all-blank id field gives an auto id; other id text is refused unless `parseInt` accepts it, and then it is the id |
| `Manager.SubmitAdd` | LibraryBookManager.java:187-206 | a refused form or a bad id changes nothing, not even the counter. Otherwise one new book with the trimmed fields is appended and saved, taking an auto id or applying the explicit-id rule |

## Left out

- The Swing window (frames, panels, buttons, listeners, dialogs, colours, fonts) and `main`. Only the show-all rule and the add rule are modelled. The remove button's null check and its messages are presentation.
- The genre box's selection handling (`LinkedHashSet` duplicate suppression and the label text). `Manager.SubmitAdd` takes the selected labels as a sequence.
- A read error partway through the file. `load` catches an `IOException` from `readLine` and keeps the books read before it; the model reads the whole file or, for `None`, nothing.
- Real file I/O. The file is an abstract string, and a failed write is not modelled. `Library.Save` always succeeds, so the divergence between list and file after a write error, and the "Save error" message, are not captured.
- The clock. The creation time is the parameter `now` of `Manager.SubmitAdd`.
- `Book.toString`, which is display-only formatting.
- `Text.Lower`: only the ASCII letters `A`-`Z` are mapped. Java's `toLowerCase` follows Unicode and the default locale.
- `JavaInt.ParseInt`: only the ASCII digits `0`-`9` are accepted. `Integer.parseInt` also accepts other Unicode decimal digits.
- `Text.LexLeq`: compares characters by code point. `String.compareTo` compares UTF-16 code units, which orders characters above `U+FFFF` differently.
- The sorting algorithm of `List.sort` (TimSort). The sorts are specified by their result, which `Store.SortByUnique` shows is the only stable sorted order.
- `getBooks` returns the live list to the window. The model reads the `books` field instead, so aliasing of that list is not captured.
