# Library catalog: book parser and inventory store

A Dafny model of the two pieces of logic in the backend exercise.

**The text parser** (`Parser/Parser.cs`) has two entry points.

- `ReadBooks` turns a `key: value` text into a list of `Book` records. It works as a two-state machine over the lines. A line starting with `Book` opens a new record. Every other line names a property, either by its own name or by its `[FieldName]` alias. Its value is converted by the property's type (`SetValue`).
- `FindBooks` keeps the books that match every `" & "` clause of a search string. A clause is cut into `*`-separated literal fragments. Each fragment must occur, ignoring case, in the title, the publisher, some author or the year.

**The inventory store** (`LibraryManager/Library.cs`) is a `Library` object holding lists of rooms, rows, shelves and books.

- `AddBook` finds or creates the room, the row and the shelf, stamps the shelf's ID on the book and appends it.
- `FindBookByISBN` is a first-match lookup.
- `GetInventoryList` joins books to shelves, rows and rooms, filters by room number and by the optional row and shelf numbers, and removes duplicates.

## Layout

- **`wrappers.dfy`**: `Option` and `Result`. `None` stands for a C# `null`; `Err` stands for an exception.
- **`text.dfy`**: the .NET string operations the code calls:
  - `String.Split` with `StringSplitOptions.None`;
  - `String.Trim` and `Trim(char)`;
  - `StartsWith`;
  - case-insensitive containment;
  - `int.Parse` and `int.ToString`.
- **`books.dfy`**: the `Book` record.
  - The seven properties are in reflection's order (the declared ones, then the inherited `Title` and `ISBN`).
  - Each property's type and alias are given.
  - `GetProperty` becomes an explicit table (`PropertyNamed`).
- **`seqs.dfy`**:
  - `FirstOrDefault` as a first-match position;
  - the find-or-create step AddBook repeats three times;
  - LINQ `Where` as an order-keeping filter;
  - LINQ `Distinct`.
- **`parser.dfy`**: ReadBooks, SetValue and FindBooks.
  - ReadBooks and FindBooks are methods with the source's loops. They are proved equal to the specification functions `ParseBooks` and `MatchingBooks`, and the properties are proved about those functions.
  - A second, record-by-record reading of the parse (`Records`, `BuildAll`) is proved equal to the line machine.
- **`library.dfy`**: the `Library` class and the specification of its operations.
  - `AddBook` is a method that changes the four list fields.
  - The two queries are functions reading the object.
  - The join pipeline is written out in LINQ's order. It is proved equal to a reference definition: the positions of the books that reach, through some shelf, row and room, the requested numbers.

## Model

| member | source | states |
|---|---|---|
| `Parser.ReadBooks` | Parser/Parser.cs:11-72 | The loop over the split lines returns exactly the result of the two-state line machine `ParseBooks`, including the error that aborts it; no partial list is returned |
| `Parser.ParseBooks` | Parser/Parser.cs:11-72 | Definition: the input split on `\n`, run through `Run` from the state with no open book, and the open book emitted at the end; its properties are stated by `ParseBooksByRecords`, `ParseBooksCount` and the lemmas below |
| `Parser.Run` | Parser/Parser.cs:17-64 | Definition: `Step` applied to each line in order; the first error ends the run |
| `Parser.Step` | Parser/Parser.cs:19-63 | Definition: a `Book` line emits the open book and opens a new one; any other line with no open book is the missing-marker error; otherwise the line is applied to the open book |
| `Parser.IsRecordStart` | Parser/Parser.cs:19 | Definition: the line starts with `Book`, compared ordinally |
| `Parser.ParseBooksByRecords` | Parser/Parser.cs:17-69 | Input whose first line is not a `Book` line fails with the missing-marker error; otherwise the result is one Book per `Book` line, in order, each built from a new Book by its own field lines, or the first error |
| `Parser.ParseBooksCount` | Parser/Parser.cs:19-26 | A successful parse returns exactly as many books as there are lines starting with `Book` |
| `Parser.EmptyRecordYieldsNewBook` | Parser/Parser.cs:66-69 | A lone `Book` line, emitted at end of input, yields one Book with every default value |
| `Parser.EmptyInputFails` | Parser/Parser.cs:29-32 | The empty input (one empty line) fails with the missing-`Book` error |
| `Parser.Message` | Parser/Parser.cs:31-63 | Definition: the literal texts of the two ArgumentExceptions ReadBooks throws (a record without a `Book` line, line 31; an unknown key, line 63), the texts the tests assert; no other member uses them |
| `Parser.LineWithoutColonFails` | Parser/Parser.cs:34-36 | A field line with no `:`, a blank line included, aborts the parse |
| `Parser.ApplyLine` | Parser/Parser.cs:34-63 | Definition: split on `:`, trim the key and the value, resolve the key, set the value; its behaviour is stated by `ApplyFieldLine`, `ValueEndsAtSecondColon` and `LineWithoutColonFails` |
| `Parser.ApplyFieldLine` | Parser/Parser.cs:34-44 | For `key:value`, the trimmed key selects the property, an unknown key is an error naming the key, and the trimmed value goes to SetValue |
| `Parser.ValueEndsAtSecondColon` | Parser/Parser.cs:34-36 | The value ends at the second `:`; text after it changes nothing |
| `Parser.AliasLookup` | Parser/Parser.cs:46-60 | Finds a property whose alias is the key, or reports that no property has it |
| `Parser.ResolveKey` | Parser/Parser.cs:38-63 | Definition: the property with the key as its name, else the first with the key as its alias; which keys select which property is stated by `ResolveKeyExact` |
| `Parser.FindAliasedProperty` | Parser/Parser.cs:50-60 | The alias loop with `break` returns the first property, in reflection order, whose alias equals the key |
| `Parser.ResolveKeyExact` | Parser/Parser.cs:38-63 | A key selects property p if and only if it is exactly p's name or p's alias (case-sensitive); so `Author` gives Authors and `Published` gives PublicationYear |
| `Books.PropertyNamed` | Parser/Parser.cs:38 | GetProperty returns a property whose name equals the key, or none when no property has that name |
| `Parser.SetValue` | Parser/Parser.cs:74-88 | An int property gets int.Parse of the value and fails exactly when that parse fails; a list property gets the value appended; a string property is overwritten; no other property changes |
| `Parser.ApplyAuthorLine` | Parser/Parser.cs:81-83 | A line whose key resolves to Authors (its name or its alias `Author`) appends its trimmed value to Authors and changes nothing else |
| `Parser.AuthorsLinesAppend` | Parser/Parser.cs:81-83 | Successive lines with a key that resolves to Authors append their trimmed values in line order |
| `Parser.AuthorLinesAppend` | Parser/Parser.cs:81-83 | Repeated `Author` lines append their trimmed values in line order |
| `Parser.StringFieldLastWins` | Parser/Parser.cs:84-86 | A string property given twice keeps the second value |
| `Books.Get` | DTOs/Book.cs:3-12 | Each property's value has the property's declared type |
| `Books.BookDeterminedByProperties` | DTOs/Book.cs:3-12 | The property table covers the whole record: books equal on every property are equal |
| `Parser.Fragments` | Parser/Parser.cs:101-106 | Fragments contain no `*`, so the escaped regex is a plain literal |
| `Parser.AllFragmentsMatchIff` | Parser/Parser.cs:103-112 | The All over fragments holds if and only if every fragment matches some field |
| `Parser.AllClausesMatchIff` | Parser/Parser.cs:99-119 | The clause loop's test holds if and only if every clause matches |
| `Parser.MatchesEveryClause` | Parser/Parser.cs:97-119 | The inner loop with its flag and `break` computes exactly "every clause matches" |
| `Parser.Clauses` | Parser/Parser.cs:93 | The search string split on ` & ` with empty pieces kept: at least one clause, and no clause contains ` & ` |
| `Parser.ClauseMatches` | Parser/Parser.cs:101-112 | Definition: the `All` over the clause's fragments; `AllFragmentsMatchIff` states it holds exactly when every fragment matches |
| `Parser.BookMatches` | Parser/Parser.cs:97-121 | Definition: `allQueriesMatch` as the `All` over the clauses; `AllClausesMatchIff` and `MatchesEveryClause` state it holds exactly when every clause matches |
| `Parser.FragmentMatches` | Parser/Parser.cs:104-111 | Definition: the fragment occurs, ignoring case, in the title, the publisher, some author or the decimal year; used by `AllFragmentsMatchIff` and `FragmentOrderIrrelevant` |
| `Parser.MatchingBooks` | Parser/Parser.cs:95-125 | Definition: the order-keeping filter of the books by `BookMatches`; `MatchingBooksMultiplicity` and `MatchingBooksAppend` state what it keeps and in which order |
| `Parser.FindBooks` | Parser/Parser.cs:90-128 | The result is a new list of exactly the books matching every clause, in input order |
| `Parser.MatchingBooksMultiplicity` | Parser/Parser.cs:95-125 | A matching book is kept as often as it occurs (duplicates kept); a book that does not match is absent |
| `Parser.MatchingBooksAppend` | Parser/Parser.cs:95-125 | Filtering commutes with concatenation, so the input order is preserved |
| `Parser.EmptyFragmentMatches` | Parser/Parser.cs:106-108 | The empty fragment matches any book with a title |
| `Parser.StarsOnlyQueryMatchesAll` | Parser/Parser.cs:93-112 | A query of `*` only, the empty query included, matches every book |
| `Parser.FragmentOrderIrrelevant` | Parser/Parser.cs:101-112 | `x*y` matches if and only if x and y each occur in some field, possibly different ones, so `y*x` matches the same books |
| `Text.Split` | Parser/Parser.cs:14 | Split returns at least one piece and no piece contains the separator |
| `Text.SplitJoin` | Parser/Parser.cs:14 | Joining the pieces with the separator gives back the split string |
| `Text.SplitUnique` | Parser/Parser.cs:101 | Splitting on one character is the only way to cut a string into separator-free pieces that join back to it |
| `Text.Trim` | Parser/Parser.cs:35-36 | The result is a middle slice of the input; every character removed around it is white space; the result neither starts nor ends with white space |
| `Text.IsWhiteSpace` | Parser/Parser.cs:35-36 | Definition: the `Char.IsWhiteSpace` set (U+0009 to U+000D, space, U+0085, U+00A0 and the Unicode space, line and paragraph separators) that `Trim()` removes |
| `Text.TrimAllDropped` | Parser/Parser.cs:101 | A string made only of trimmed characters trims to the empty string |
| `Text.Lower` | Parser/Parser.cs:108-111 | Case folding keeps the length and folds each character |
| `Text.ContainsIgnoreCase` | Parser/Parser.cs:108-111 | Definition: `Regex.IsMatch` of a star-free literal with IgnoreCase, as containment after case folding both sides |
| `Text.ParseInt` | Parser/Parser.cs:79 | Parsing succeeds exactly on an optional sign followed by one or more digits whose value, negated after `-`, is in the 32-bit range; the result is that value |
| `Text.IntToStringRoundTrip` | Parser/Parser.cs:111 | Parsing the decimal rendering of a 32-bit year gives the year back |
| `Text.IntToString` | Parser/Parser.cs:111 | Definition: `-` before the digits of a negative value; `IntToStringRoundTrip` and `ParseIntCanonical` state that it and `ParseInt` are inverse on canonical text |
| `Text.ParseIntCanonical` | Parser/Parser.cs:79 | A text with no `+`, no leading zeros and no `-0` that parses to v is exactly the rendering of v, so parsing is injective on such text |
| `Text.DigitsOfValue` | Parser/Parser.cs:111 | Decimal digits without leading zeros are the rendering of the value they denote |
| `Text.ParseIntPlusZeros` | Parser/Parser.cs:79 | `+007` parses to 7: a plus sign and leading zeros are accepted |
| `Text.ParseIntRejectsLetter` | Parser/Parser.cs:79 | `1a` does not parse |
| `Seqs.FirstWithKey` | LibraryManager/Library.cs:11 | FirstOrDefault finds the first element with the key, and finds none exactly when no element has it |
| `Seqs.FindOrCreate` | LibraryManager/Library.cs:11-16 | An existing match leaves the list unchanged; otherwise the new entry is appended as the last element; the result is the list's first match |
| `LibraryManager.Place` | LibraryManager/Library.cs:11-30 | Room by number, row by number and room ID, shelf by number and row ID: each list grows by one entry with the unassigned ID exactly when nothing matches, and the resolved entries are the first matches |
| `LibraryManager.PlaceIdempotent` | LibraryManager/Library.cs:11-30 | Placing again with the same numbers adds no Room, Row or BookShelf and resolves to the same shelf |
| `LibraryManager.Library.constructor` | LibraryManager/Library.cs:4-7 | A new Library has four empty lists |
| `LibraryManager.Library.AddBook` | LibraryManager/Library.cs:9-34 | The three lists become those of the find-or-create placement; Books gets the book, stamped with the resolved shelf's ID, as its new last element, with earlier entries unchanged |
| `LibraryManager.NewShelvesShareID` | LibraryManager/Library.cs:28-32 | New shelves keep the default ID, so a book put on a new shelf 2 is also listed for shelf 1 of the same row |
| `LibraryManager.Library.FindBookByISBN` | LibraryManager/Library.cs:37-40 | Returns the first book whose ISBN equals the argument; returns none exactly when no book has it |
| `LibraryManager.Library.GetInventoryList` | LibraryManager/Library.cs:42-57 | Fails exactly when a shelf number is given without a row number, before any lookup; otherwise returns the books at the positions `InventoryIndices` picks, in catalog order |
| `LibraryManager.InventoryMessage` | LibraryManager/Library.cs:45 | Definition: the literal text of the ArgumentException for a shelf number without a row number; no other member uses it |
| `LibraryManager.InventoryIndicesSpec` | LibraryManager/Library.cs:47-54 | Every position listed has a shelf, row and room joined to it that pass the filter; every such position is listed; positions strictly increase, so there are no duplicates |
| `LibraryManager.PipelineIsInventoryIndices` | LibraryManager/Library.cs:47-55 | The Join, Where, Select and Distinct pipeline picks exactly the located books, each once, in catalog order, however many same-ID shelves a book joins |
| `LibraryManager.Joined` | LibraryManager/Library.cs:47-50 | Definition: the three joins over the first n books, in LINQ's order (outer element first, then its matching inner elements); `JoinedBooksBelow` states it holds only entries of those books |
| `LibraryManager.Inventory` | LibraryManager/Library.cs:47-56 | Definition: Join, Where, Select and Distinct over all books; `PipelineIsInventoryIndices` states it equals the located positions |
| `LibraryManager.ShelfEntriesMembers` | LibraryManager/Library.cs:48-50 | A book's part of the three joins holds exactly its shelf, row and room combinations whose IDs link |
| `LibraryManager.WhereMembers` | LibraryManager/Library.cs:51-53 | The Where clause keeps exactly the entries with the room number and the given row and shelf numbers |
| `Seqs.Filter` | LibraryManager/Library.cs:51-53 | LINQ `Where`: the kept elements in input order, never more than the input; `FilterMembers`, `FilterMultiplicity` and `FilterAppend` state which elements and in which order |
| `Seqs.FilterMembers` | LibraryManager/Library.cs:51-53 | The filter holds exactly the input elements that satisfy the predicate |
| `Seqs.FilterMultiplicity` | Parser/Parser.cs:95-125 | A kept element occurs as often as in the input; any other element does not occur |
| `Seqs.FilterAppend` | Parser/Parser.cs:95-125 | Filtering commutes with concatenation, so input order is kept |
| `LibraryManager.Wanted` | LibraryManager/Library.cs:51-53 | Definition: the Where predicate: the room number matches, and so do the row and shelf numbers when given |
| `LibraryManager.Where` | LibraryManager/Library.cs:51-53 | Definition: `Filter` by `Wanted`; `WhereMembers` and `WhereAppend` state what it keeps |
| `LibraryManager.WhereAppend` | LibraryManager/Library.cs:51-53 | Where commutes with concatenation, so the join's order is kept |
| `LibraryManager.SelectBooks` | LibraryManager/Library.cs:54 | The Select clause: one book position per entry, in entry order, the k-th being the k-th entry's book |
| `Seqs.DistinctSpec` | LibraryManager/Library.cs:55 | Distinct leaves no duplicates, keeps exactly the elements of its input and is no longer |
| `Seqs.Distinct` | LibraryManager/Library.cs:55 | Definition: each element kept at its first occurrence, in order; its properties are stated by `DistinctSpec` and `DistinctAppendCopies` |
| `Seqs.DistinctAppendCopies` | LibraryManager/Library.cs:55 | Copies of a new element add it once, at the end |

## Left out

- **Regex matching.** `Regex.IsMatch` is modelled as substring containment. After `Trim('*')` and `Split('*')` a fragment holds no `*`, so the escaped pattern is a literal.
- **Culture-aware case folding.** `RegexOptions.IgnoreCase` is modelled as ASCII lower-casing.
- **Reflection.** `GetProperty`, `GetProperties` and `GetCustomAttribute` are replaced by an explicit property table, built from the Book record and its inherited Title and ISBN. The order is the one the .NET runtime uses in practice for a derived class (declared properties, then inherited ones); .NET documents no order for `GetProperties()`, and `ResolveKeyExact` shows the order never changes which property a key selects. DTOs/FieldNameAttribute.cs is not part of this model beyond that table.
- **int.Parse.** It is modelled as an optional sign followed by decimal digits in the 32-bit range. Culture, other number styles, and the difference between FormatException and OverflowException are left out.
- **Exception types.** Exceptions are `Err` values. The two messages ReadBooks builds and GetInventoryList's message are kept as constants.
- Parser.SetValue: Book is a value, so SetValue returns the updated book instead of changing the caller's Book object in place. Aliasing of Book objects is not modelled.
- Parser.ReadBooks: the open record is a Book value, updated by SetValue's result rather than in place.
- Parser.FindBooks: requires every Title and Publisher to be non-null. The source throws ArgumentNullException from `Regex.IsMatch` only when the `||` chain reaches a null field. A null Title is always reached. A null Publisher is reached only when the Title does not contain the fragment, so the source returns a book with a null Publisher whose Title contains every fragment. The requires excludes those books too.
- Parser.IsRecordStart: compares ordinally. .NET's `StartsWith(string)` compares under the current culture, which skips ignorable characters such as a soft hyphen (`\u00ADBook` opens a record there); those characters are not modelled.
- Text.ParseInt: Int32.Parse also accepts trailing `\0` characters (`5\0` parses to 5); they are not modelled.
- LibraryManager.Library.AddBook: stores the book with the shelf ID stamped on it. It does not model the caller's Book object being changed in place, or the same object being added twice.
- LibraryManager.Library.GetInventoryList: `Distinct` removes repeats of a book's position in Books, not of a Book reference. The same Book object added twice is listed twice here but once by the source.
- **The Room, Row, BookShelf and LibraryItem types** are not part of this model. Their IDs are taken to be plain ints that keep the default 0 when AddBook creates the entity, since the code never assigns them.
- **DTOs/Track.cs** is not part of this model. Nothing in the core uses it.
- **FindBooks is split into two methods.** The inner clause loop of FindBooks is the separate method `MatchesEveryClause`, called from the outer loop.
