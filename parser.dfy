/** Parser/Parser.cs: ReadBooks, the line-oriented ingestion of Book records, with
    SetValue's type-directed coercion and the key resolution it uses; and FindBooks,
    the AND-of-fragments wildcard filter. */
module Parser {
  import opened Wrappers
  import opened Text
  import opened Books
  import opened Seqs

  const LineDelimiter: string := "\n"
  const KeyValueDelimiter: string := ":"
  const QueryDelimiter: string := " & "
  const RecordMarker: string := "Book"

  /** Why ReadBooks aborts. */
  datatype ParseError =
    | MissingBookMarker                    // ArgumentException: a field line before any "Book" line
    | MissingKeyValueDelimiter(line: string) // IndexOutOfRangeException: keyValue[1] on a line without ':'
    | UnknownKey(key: string)              // ArgumentException: neither a property name nor an alias
    | InvalidInteger(value: string)        // FormatException or OverflowException from int.Parse

  /** The messages of the two ArgumentExceptions ReadBooks throws itself. */
  function Message(e: ParseError): string
    requires e.MissingBookMarker? || e.UnknownKey?
  {
    match e
    case MissingBookMarker => "Each entry should start with \"Book\"!"
    case UnknownKey(key) => "Property with key " + key + " could not be parsed."
  }

  // ---------------------------------------------------------------------------
  // Key resolution and coercion
  // ---------------------------------------------------------------------------

  /** The first property of props whose [FieldName] alias is key. */
  function AliasLookup(key: string, props: seq<Property>): (r: Option<Property>)
    ensures r.Some? ==> r.value in props && Alias(r.value) == Some(key)
    ensures r.None? ==> forall p :: p in props ==> Alias(p) != Some(key)
  {
    if |props| == 0 then None
    else if Alias(props[0]) == Some(key) then Some(props[0])
    else AliasLookup(key, props[1..])
  }

  /** GetProperty(key) first, then the [FieldName] aliases. */
  function ResolveKey(key: string): Option<Property> {
    match PropertyNamed(key)
    case Some(p) => Some(p)
    case None => AliasLookup(key, Properties)
  }

  /** Key resolution is exact and case-sensitive: a key selects property p exactly when it
      is p's name or p's alias (no name is an alias, so the order never matters). */
  lemma ResolveKeyExact(key: string, p: Property)
    ensures ResolveKey(key) == Some(p) <==> Name(p) == key || Alias(p) == Some(key)
  {
    assert p in Properties;
    match PropertyNamed(key)
    case Some(q) =>
      assert Name(q) == key;
      assert Name(p) == key ==> p == q;
      assert Alias(p) != Some(key);
    case None =>
      if Alias(p) == Some(key) {
        assert forall q :: q in Properties && Alias(q) == Some(key) ==> q == p;
      }
  }

  /** The foreach over the properties carrying [FieldName]: the first whose alias is key. */
  method FindAliasedProperty(key: string) returns (found: Option<Property>)
    ensures found == AliasLookup(key, Properties)
  {
    found := None;
    var i := 0;
    while i < |Properties|
      invariant 0 <= i <= |Properties|
      invariant AliasLookup(key, Properties[i..]) == AliasLookup(key, Properties)
    {
      var prop := Properties[i];
      if Alias(prop).Some? && Alias(prop).value == key {
        found := Some(prop);
        break;
      }
      assert Properties[i..][1..] == Properties[i + 1..];
      i := i + 1;
    }
  }

  /** SetValue: an int property gets int.Parse of the value, a List<string> property gets
      the value appended, a string property is overwritten; no other property changes. */
  function SetValue(book: Book, p: Property, value: string): (r: Result<Book, ParseError>)
    ensures r.Err? <==> TypeOf(p) == IntType && ParseInt(value).None?
    ensures r.Err? ==> r.error == InvalidInteger(value)
    ensures r.Ok? ==> forall q :: q != p ==> Get(r.value, q) == Get(book, q)
    ensures r.Ok? ==> Get(r.value, p) == match TypeOf(p)
      case IntType => IntValue(ParseInt(value).value)
      case StringListType => StringListValue(Get(book, p).items + [value])
      case StringType => StringValue(Some(value))
  {
    match p
    case ISBN => Ok(book.(isbn := Some(value)))
    case Title => Ok(book.(title := Some(value)))
    case Publisher => Ok(book.(publisher := Some(value)))
    case Authors => Ok(book.(authors := book.authors + [value]))
    case NumberOfPages =>
      if ParseInt(value).None? then Err(InvalidInteger(value))
      else Ok(book.(numberOfPages := ParseInt(value).value))
    case PublicationYear =>
      if ParseInt(value).None? then Err(InvalidInteger(value))
      else Ok(book.(publicationYear := ParseInt(value).value))
    case ShelfID =>
      if ParseInt(value).None? then Err(InvalidInteger(value))
      else Ok(book.(shelfID := ParseInt(value).value))
  }

  // ---------------------------------------------------------------------------
  // The line state machine
  // ---------------------------------------------------------------------------

  /** Ordinal prefix test on the untrimmed line; the rest of the line is ignored. */
  predicate IsRecordStart(line: string) {
    StartsWith(line, RecordMarker)
  }

  /** Applies one field line to the open book: the key is the trimmed text before the first
      ':', the value the trimmed text between the first and the second ':'. */
  function ApplyLine(book: Book, line: string): Result<Book, ParseError> {
    var keyValue := Split(line, KeyValueDelimiter);
    var key := Trim(keyValue[0], IsWhiteSpace);
    if |keyValue| < 2 then Err(MissingKeyValueDelimiter(line))
    else
      var value := Trim(keyValue[1], IsWhiteSpace);
      match ResolveKey(key)
      case None => Err(UnknownKey(key))
      case Some(p) => SetValue(book, p, value)
  }

  /** The books emitted so far and the record still open (None: no record open). */
  datatype ParserState = ParserState(books: seq<Book>, current: Option<Book>)

  const Start: ParserState := ParserState([], None)

  /** What the state holds once the open record, if any, is emitted. */
  function Emitted(st: ParserState): seq<Book> {
    st.books + (if st.current.Some? then [st.current.value] else [])
  }

  function Step(st: ParserState, line: string): Result<ParserState, ParseError> {
    if IsRecordStart(line) then Ok(ParserState(Emitted(st), Some(NewBook)))
    else match st.current
      case None => Err(MissingBookMarker)
      case Some(book) =>
        match ApplyLine(book, line)
        case Err(e) => Err(e)
        case Ok(b) => Ok(ParserState(st.books, Some(b)))
  }

  function Run(st: ParserState, lines: seq<string>): Result<ParserState, ParseError>
    decreases |lines|
  {
    if |lines| == 0 then Ok(st)
    else match Step(st, lines[0])
      case Err(e) => Err(e)
      case Ok(st') => Run(st', lines[1..])
  }

  function Finish(r: Result<ParserState, ParseError>): Result<seq<Book>, ParseError> {
    match r
    case Err(e) => Err(e)
    case Ok(st) => Ok(Emitted(st))
  }

  function Lines(input: string): seq<string> {
    Split(input, LineDelimiter)
  }

  /** What ReadBooks returns for input: the books, or the error that aborted the call. */
  function ParseBooks(input: string): Result<seq<Book>, ParseError> {
    Finish(Run(Start, Lines(input)))
  }

  /** ReadBooks: split the input on '\n' and run the two-state machine over the lines. */
  method ReadBooks(input: string) returns (r: Result<seq<Book>, ParseError>)
    ensures r == ParseBooks(input)
  {
    var books: seq<Book> := [];
    var lines := Split(input, LineDelimiter);
    var currentBook: Option<Book> := None;
    for i := 0 to |lines|
      invariant Run(Start, lines) == Run(ParserState(books, currentBook), lines[i..])
    {
      ghost var before := ParserState(books, currentBook);
      var line := lines[i];
      assert lines[i..] == [line] + lines[i + 1..];
      if StartsWith(line, RecordMarker) {
        if currentBook.Some? {
          books := books + [currentBook.value];
        }
        assert books == Emitted(before);
        currentBook := Some(NewBook);
        assert IsRecordStart(line);
        assert Step(before, line) == Ok(ParserState(books, currentBook));
        continue;
      }
      if currentBook.None? {
        assert Step(before, line) == Err(MissingBookMarker);
        return Err(MissingBookMarker);
      }
      var keyValue := Split(line, KeyValueDelimiter);
      var key := Trim(keyValue[0], IsWhiteSpace);
      if |keyValue| < 2 {
        assert Step(before, line) == Err(MissingKeyValueDelimiter(line));
        return Err(MissingKeyValueDelimiter(line));
      }
      var value := Trim(keyValue[1], IsWhiteSpace);
      var propertyInfo := PropertyNamed(key);
      var target: Property;
      if propertyInfo.Some? {
        target := propertyInfo.value;
      } else {
        var aliased := FindAliasedProperty(key);
        if aliased.None? {
          assert Step(before, line) == Err(UnknownKey(key));
          return Err(UnknownKey(key));
        }
        target := aliased.value;
      }
      assert ResolveKey(key) == Some(target);
      var updated := SetValue(currentBook.value, target, value);
      assert ApplyLine(currentBook.value, line) == updated;
      if updated.Err? {
        assert Step(before, line) == Err(updated.error);
        return Err(updated.error);
      }
      currentBook := Some(updated.value);
      assert Step(before, line) == Ok(ParserState(books, currentBook));
    }
    assert lines[|lines|..] == [];
    ghost var final := ParserState(books, currentBook);
    assert Run(Start, Lines(input)) == Ok(final);
    if currentBook.Some? {
      books := books + [currentBook.value];
    }
    assert books == Emitted(final);
    return Ok(books);
  }

  // ---------------------------------------------------------------------------
  // The same parse, stated record by record
  // ---------------------------------------------------------------------------

  /** A record: its "Book" line and the field lines up to the next "Book" line. */
  datatype Record = Record(header: string, fields: seq<string>)

  predicate WellFormed(rec: Record) {
    IsRecordStart(rec.header) && forall i :: 0 <= i < |rec.fields| ==> !IsRecordStart(rec.fields[i])
  }

  predicate AllWellFormed(recs: seq<Record>) {
    forall i :: 0 <= i < |recs| ==> WellFormed(recs[i])
  }

  /** The lines of a sequence of records. */
  function Unblock(recs: seq<Record>): seq<string> {
    if |recs| == 0 then [] else [recs[0].header] + recs[0].fields + Unblock(recs[1..])
  }

  /** One record's field lines applied in order to book; the first failing line aborts. */
  function BuildBook(book: Book, fields: seq<string>): Result<Book, ParseError>
    decreases |fields|
  {
    if |fields| == 0 then Ok(book)
    else match ApplyLine(book, fields[0])
      case Err(e) => Err(e)
      case Ok(b) => BuildBook(b, fields[1..])
  }

  /** One Book per record, each built from a new Book, in record order; the first error wins. */
  function BuildAll(recs: seq<Record>): (r: Result<seq<Book>, ParseError>)
    ensures r.Ok? ==> |r.value| == |recs|
  {
    if |recs| == 0 then Ok([])
    else match BuildBook(NewBook, recs[0].fields)
      case Err(e) => Err(e)
      case Ok(b) =>
        match BuildAll(recs[1..])
        case Err(e) => Err(e)
        case Ok(bs) => Ok([b] + bs)
  }

  function CountRecordStarts(lines: seq<string>): nat {
    if |lines| == 0 then 0
    else (if IsRecordStart(lines[0]) then 1 else 0) + CountRecordStarts(lines[1..])
  }

  /** The number of lines before the first "Book" line. */
  function LeadingFields(lines: seq<string>): (n: nat)
    ensures n <= |lines|
    ensures forall i :: 0 <= i < n ==> !IsRecordStart(lines[i])
    ensures n < |lines| ==> IsRecordStart(lines[n])
  {
    if |lines| == 0 || IsRecordStart(lines[0]) then 0 else 1 + LeadingFields(lines[1..])
  }

  lemma {:induction false} CountAppend(a: seq<string>, b: seq<string>)
    ensures CountRecordStarts(a + b) == CountRecordStarts(a) + CountRecordStarts(b)
  {
    if |a| > 0 {
      CountAppend(a[1..], b);
      assert (a + b)[1..] == a[1..] + b;
    } else {
      assert a + b == b;
    }
  }

  lemma {:induction false} CountFields(fields: seq<string>)
    requires forall i :: 0 <= i < |fields| ==> !IsRecordStart(fields[i])
    ensures CountRecordStarts(fields) == 0
  {
    if |fields| > 0 {
      CountFields(fields[1..]);
    }
  }

  /** Cuts lines that open with a "Book" line into records. */
  function Records(lines: seq<string>): (recs: seq<Record>)
    requires |lines| > 0 && IsRecordStart(lines[0])
    ensures |recs| > 0 && AllWellFormed(recs)
    ensures Unblock(recs) == lines
    ensures |recs| == CountRecordStarts(lines)
    decreases |lines|
  {
    var n := LeadingFields(lines[1..]);
    var rec := Record(lines[0], lines[1..1 + n]);
    CountFields(rec.fields);
    CountAppend([lines[0]] + rec.fields, lines[1 + n..]);
    CountAppend([lines[0]], rec.fields);
    assert lines == [lines[0]] + rec.fields + lines[1 + n..];
    if 1 + n == |lines| then
      assert Unblock([rec]) == [lines[0]] + rec.fields;
      [rec]
    else
      var rest := Records(lines[1 + n..]);
      assert ([rec] + rest)[1..] == rest;
      [rec] + rest
  }

  /** Running lines a then b is running a and, unless it failed, b from where a stopped. */
  lemma {:induction false} RunAppend(st: ParserState, a: seq<string>, b: seq<string>)
    ensures Run(st, a + b) == match Run(st, a) case Err(e) => Err(e) case Ok(s) => Run(s, b)
    decreases |a|
  {
    if |a| > 0 {
      assert (a + b)[0] == a[0] && (a + b)[1..] == a[1..] + b;
      match Step(st, a[0])
      case Err(e) =>
      case Ok(st') => RunAppend(st', a[1..], b);
    } else {
      assert a + b == b;
    }
  }

  /** Field lines of the open record are applied to it, in order. */
  lemma {:induction false} RunFields(books: seq<Book>, book: Book, fields: seq<string>, rest: seq<string>)
    requires forall i :: 0 <= i < |fields| ==> !IsRecordStart(fields[i])
    ensures Run(ParserState(books, Some(book)), fields + rest)
      == match BuildBook(book, fields)
         case Err(e) => Err(e)
         case Ok(b) => Run(ParserState(books, Some(b)), rest)
    decreases |fields|
  {
    if |fields| > 0 {
      assert (fields + rest)[0] == fields[0] && (fields + rest)[1..] == fields[1..] + rest;
      match ApplyLine(book, fields[0])
      case Err(e) =>
      case Ok(b) => RunFields(books, b, fields[1..], rest);
    } else {
      assert fields + rest == rest;
    }
  }

  lemma {:induction false} RunRecords(st: ParserState, recs: seq<Record>)
    requires AllWellFormed(recs)
    ensures Finish(Run(st, Unblock(recs))) == Prepend(Emitted(st), BuildAll(recs))
    decreases |recs|
  {
    if |recs| == 0 {
      assert Emitted(st) + [] == Emitted(st);
    } else {
      RunFirstRecord(st, recs);
      var built := BuildBook(NewBook, recs[0].fields);
      if built.Ok? {
        var next := ParserState(Emitted(st), Some(built.value));
        RunRecords(next, recs[1..]);
        PrependCons(Emitted(st), built.value, BuildAll(recs[1..]));
      }
    }
  }

  /** bs prefixed to a successful result; errors pass through. */
  function Prepend(bs: seq<Book>, r: Result<seq<Book>, ParseError>): Result<seq<Book>, ParseError> {
    match r
    case Err(e) => Err(e)
    case Ok(rest) => Ok(bs + rest)
  }

  lemma PrependCons(bs: seq<Book>, b: Book, r: Result<seq<Book>, ParseError>)
    ensures Prepend(bs + [b], r) == Prepend(bs, match r case Err(e) => Err(e) case Ok(rest) => Ok([b] + rest))
  {
    if r.Ok? {
      assert bs + [b] + r.value == bs + ([b] + r.value);
    }
  }

  /** The first record's "Book" line emits what was open, and its field lines build the next book. */
  lemma RunFirstRecord(st: ParserState, recs: seq<Record>)
    requires |recs| > 0 && AllWellFormed(recs)
    ensures Run(st, Unblock(recs))
      == match BuildBook(NewBook, recs[0].fields)
         case Err(e) => Err(e)
         case Ok(b) => Run(ParserState(Emitted(st), Some(b)), Unblock(recs[1..]))
  {
    var rec := recs[0];
    var tail := Unblock(recs[1..]);
    assert Unblock(recs) == [rec.header] + (rec.fields + tail);
    var openState := ParserState(Emitted(st), Some(NewBook));
    assert Run(st, Unblock(recs)) == Run(openState, rec.fields + tail) by {
      assert Step(st, rec.header) == Ok(openState);
    }
    RunFields(Emitted(st), NewBook, rec.fields, tail);
  }

  /** ReadBooks, record by record: input whose first line is not a "Book" line fails with
      the missing-marker error; otherwise the result is one Book per "Book" line, in order,
      each built from a new Book by its own field lines, or the first line's error. */
  lemma ParseBooksByRecords(input: string)
    ensures !IsRecordStart(Lines(input)[0]) ==> ParseBooks(input) == Err(MissingBookMarker)
    ensures IsRecordStart(Lines(input)[0]) ==> ParseBooks(input) == BuildAll(Records(Lines(input)))
  {
    var lines := Lines(input);
    if IsRecordStart(lines[0]) {
      var recs := Records(lines);
      RunRecords(Start, recs);
      assert Emitted(Start) == [];
      if BuildAll(recs).Ok? {
        assert [] + BuildAll(recs).value == BuildAll(recs).value;
      }
    } else {
      assert lines == [lines[0]] + lines[1..];
      RunAppend(Start, [lines[0]], lines[1..]);
    }
  }

  /** A successful ReadBooks returns exactly one Book per line that starts with "Book". */
  lemma ParseBooksCount(input: string)
    requires ParseBooks(input).Ok?
    ensures |ParseBooks(input).value| == CountRecordStarts(Lines(input))
  {
    ParseBooksByRecords(input);
  }

  /** Empty input has the single line "", which is no "Book" line: the call fails. */
  lemma EmptyInputFails()
    ensures ParseBooks("") == Err(MissingBookMarker)
  {
    ParseBooksByRecords("");
  }

  /** A "Book" line followed by no field line still yields a Book with every default. */
  lemma EmptyRecordYieldsNewBook(header: string)
    requires IsRecordStart(header) && '\n' !in header
    ensures ParseBooks(header) == Ok([NewBook])
  {
    CharNotContained(header, '\n');
    SplitNone(header, LineDelimiter);
    assert Lines(header) == [header];
    var open := ParserState([], Some(NewBook));
    assert Emitted(Start) == [];
    assert Step(Start, header) == Ok(open);
    assert [header][1..] == [];
    assert Run(Start, [header]) == Run(open, []);
    assert Emitted(open) == [NewBook];
  }

  // ---------------------------------------------------------------------------
  // Field lines
  // ---------------------------------------------------------------------------

  /** A line with no ':' aborts the parse, blank lines included. */
  lemma LineWithoutColonFails(book: Book, line: string)
    requires ':' !in line
    ensures ApplyLine(book, line) == Err(MissingKeyValueDelimiter(line))
  {
    CharNotContained(line, ':');
    SplitNone(line, KeyValueDelimiter);
  }

  /** key ':' value, with no other ':': the trimmed key selects the property and the
      trimmed value is applied to it. */
  lemma ApplyFieldLine(book: Book, key: string, value: string)
    requires ':' !in key && ':' !in value
    ensures ApplyLine(book, key + ":" + value)
      == match ResolveKey(Trim(key, IsWhiteSpace))
         case None => Err(UnknownKey(Trim(key, IsWhiteSpace)))
         case Some(p) => SetValue(book, p, Trim(value, IsWhiteSpace))
  {
    SplitCons(key, ':', value);
    CharNotContained(value, ':');
    SplitNone(value, KeyValueDelimiter);
  }

  /** The value ends at the second ':'; whatever follows it is dropped. */
  lemma ValueEndsAtSecondColon(book: Book, key: string, value: string, rest: string)
    requires ':' !in key && ':' !in value
    ensures ApplyLine(book, key + ":" + value + ":" + rest) == ApplyLine(book, key + ":" + value)
  {
    SplitCons(key, ':', value + ":" + rest);
    assert key + ":" + value + ":" + rest == key + [':'] + (value + ":" + rest);
    SplitCons(value, ':', rest);
    assert value + ":" + rest == value + [':'] + rest;
    ApplyFieldLine(book, key, value);
    assert key + ":" + value == key + [':'] + value;
  }

  /** One field line `key:value` per value, all with the same key. */
  function FieldLines(key: string, values: seq<string>): (lines: seq<string>)
    ensures |lines| == |values|
  {
    if |values| == 0 then [] else [key + ":" + values[0]] + FieldLines(key, values[1..])
  }

  /** A field line whose key resolves to p applies the trimmed value to p. */
  lemma ApplyKnownField(book: Book, key: string, value: string, p: Property)
    requires ':' !in key && ':' !in value
    requires ResolveKey(Trim(key, IsWhiteSpace)) == Some(p)
    ensures ApplyLine(book, key + ":" + value) == SetValue(book, p, Trim(value, IsWhiteSpace))
  {
    ApplyFieldLine(book, key, value);
  }

  /** A line whose key resolves to Authors (its name or its alias) appends the trimmed value
      to Authors and changes nothing else. */
  lemma ApplyAuthorLine(book: Book, key: string, v: string)
    requires ':' !in key && ':' !in v
    requires ResolveKey(Trim(key, IsWhiteSpace)) == Some(Authors)
    ensures ApplyLine(book, key + ":" + v) == Ok(book.(authors := book.authors + [Trim(v, IsWhiteSpace)]))
  {
    ApplyKnownField(book, key, v, Authors);
    SetAuthor(book, Trim(v, IsWhiteSpace));
  }

  /** Setting Authors appends the value to the list. */
  lemma SetAuthor(book: Book, v: string)
    ensures SetValue(book, Authors, v) == Ok(book.(authors := book.authors + [v]))
  {
  }

  /** The first line applied, then the rest. */
  lemma BuildBookCons(book: Book, fields: seq<string>, b: Book)
    requires |fields| > 0 && ApplyLine(book, fields[0]) == Ok(b)
    ensures BuildBook(book, fields) == BuildBook(b, fields[1..])
  {
  }

  /** Each value with its surrounding white space removed. */
  function TrimmedValues(values: seq<string>): (r: seq<string>)
    ensures |r| == |values|
  {
    if |values| == 0 then [] else [Trim(values[0], IsWhiteSpace)] + TrimmedValues(values[1..])
  }

  /** Repeated lines whose key resolves to Authors append their trimmed values in line order. */
  lemma {:induction false} AuthorsLinesAppend(book: Book, key: string, values: seq<string>)
    requires ':' !in key && ResolveKey(Trim(key, IsWhiteSpace)) == Some(Authors)
    requires forall i :: 0 <= i < |values| ==> ':' !in values[i]
    ensures BuildBook(book, FieldLines(key, values)) == Ok(book.(authors := book.authors + TrimmedValues(values)))
    decreases |values|
  {
    if |values| == 0 {
      assert book.authors + TrimmedValues(values) == book.authors;
    } else {
      var b := book.(authors := book.authors + [Trim(values[0], IsWhiteSpace)]);
      calc {
        BuildBook(book, FieldLines(key, values));
      == { AuthorsLineCons(book, key, values); }
        BuildBook(b, FieldLines(key, values[1..]));
      == { AuthorsLinesAppend(b, key, values[1..]); }
        Ok(b.(authors := b.authors + TrimmedValues(values[1..])));
      == { AppendAssoc(book.authors, [Trim(values[0], IsWhiteSpace)], TrimmedValues(values[1..])); }
        Ok(book.(authors := book.authors + TrimmedValues(values)));
      }
    }
  }

  /** The first of the lines appends its value; the rest then apply to the result. */
  lemma AuthorsLineCons(book: Book, key: string, values: seq<string>)
    requires ':' !in key && ResolveKey(Trim(key, IsWhiteSpace)) == Some(Authors)
    requires |values| > 0 && ':' !in values[0]
    ensures BuildBook(book, FieldLines(key, values))
      == BuildBook(book.(authors := book.authors + [Trim(values[0], IsWhiteSpace)]), FieldLines(key, values[1..]))
  {
    var b := book.(authors := book.authors + [Trim(values[0], IsWhiteSpace)]);
    ApplyAuthorLine(book, key, values[0]);
    BuildBookCons(book, FieldLines(key, values), b);
  }

  /** The alias "Author" is a key that resolves to Authors. */
  lemma AuthorKey()
    ensures ':' !in "Author"
    ensures ResolveKey(Trim("Author", IsWhiteSpace)) == Some(Authors)
  {
    assert Trim("Author", IsWhiteSpace) == "Author" by {
      TrimKept("Author", IsWhiteSpace);
    }
    assert ResolveKey("Author") == Some(Authors) by {
      assert PropertyNamed("Author") == None;
    }
  }

  /** Repeated "Author" lines append their trimmed values to Authors in line order. */
  lemma AuthorLinesAppend(book: Book, values: seq<string>)
    requires forall i :: 0 <= i < |values| ==> ':' !in values[i]
    ensures BuildBook(book, FieldLines("Author", values)) == Ok(book.(authors := book.authors + TrimmedValues(values)))
  {
    AuthorKey();
    AuthorsLinesAppend(book, "Author", values);
  }

  /** A string property set twice keeps the second value. */
  lemma StringFieldLastWins(book: Book, p: Property, first: string, second: string)
    requires TypeOf(p) == StringType
    requires ':' !in first && ':' !in second
    ensures BuildBook(book, [Name(p) + ":" + first, Name(p) + ":" + second]).Ok?
    ensures Get(BuildBook(book, [Name(p) + ":" + first, Name(p) + ":" + second]).value, p)
      == StringValue(Some(Trim(second, IsWhiteSpace)))
  {
    var key := Name(p);
    NameKept(p);
    assert ResolveKey(Trim(key, IsWhiteSpace)) == Some(p) by {
      ResolveKeyExact(key, p);
    }
    var lines := [key + ":" + first, key + ":" + second];
    var b := SetValue(book, p, Trim(first, IsWhiteSpace)).value;
    var c := SetValue(b, p, Trim(second, IsWhiteSpace)).value;
    assert BuildBook(book, lines) == BuildBook(b, lines[1..]) by {
      ApplyKnownField(book, key, first, p);
      BuildBookCons(book, lines, b);
    }
    assert BuildBook(b, lines[1..]) == Ok(c) by {
      ApplyKnownField(b, key, second, p);
      BuildBookCons(b, lines[1..], c);
      assert lines[1..][1..] == [];
    }
    assert Get(c, p) == StringValue(Some(Trim(second, IsWhiteSpace)));
  }

  /** Property names carry no ':' and no surrounding white space. */
  lemma NameKept(p: Property)
    ensures ':' !in Name(p)
    ensures Trim(Name(p), IsWhiteSpace) == Name(p)
  {
    NameEnds(p);
    TrimKept(Name(p), IsWhiteSpace);
    NameColonFree(p);
  }

  lemma NameEnds(p: Property)
    ensures |Name(p)| > 0 && !IsWhiteSpace(Name(p)[0]) && !IsWhiteSpace(Name(p)[|Name(p)| - 1])
  {
  }

  lemma NameColonFree(p: Property)
    ensures ':' !in Name(p)
  {
  }


  // ---------------------------------------------------------------------------
  // FindBooks
  // ---------------------------------------------------------------------------

  /** The query split on " & "; empty clauses are kept. */
  function Clauses(query: string): (r: seq<string>)
    ensures |r| > 0
    ensures forall i :: 0 <= i < |r| ==> !Contains(r[i], QueryDelimiter)
  {
    Split(query, QueryDelimiter)
  }

  /** The literal fragments of a clause: leading and trailing '*' trimmed, then split on '*'.
      No fragment contains '*', so escaping it for the regex leaves a plain literal. */
  function Fragments(clause: string): (r: seq<string>)
    ensures |r| > 0
    ensures forall i :: 0 <= i < |r| ==> !Contains(r[i], "*")
  {
    Split(Trim(clause, IsStar), "*")
  }

  /** Regex.IsMatch(field, literal, IgnoreCase) on a field FindBooks requires to be set. */
  predicate FieldMatches(field: Option<string>, fragment: string) {
    field.Some? && ContainsIgnoreCase(field.value, fragment)
  }

  /** Title, Publisher, some author or the year in decimal contains the fragment. */
  predicate FragmentMatches(book: Book, fragment: string) {
    || FieldMatches(book.title, fragment)
    || FieldMatches(book.publisher, fragment)
    || (exists a | a in book.authors :: ContainsIgnoreCase(a, fragment))
    || ContainsIgnoreCase(IntToString(book.publicationYear), fragment)
  }

  /** Enumerable.All over the fragments, first to last. */
  predicate AllFragmentsMatch(book: Book, fragments: seq<string>) {
    |fragments| == 0 || (FragmentMatches(book, fragments[0]) && AllFragmentsMatch(book, fragments[1..]))
  }

  /** The All(...) lambda: every fragment of the clause is found in some field. */
  predicate ClauseMatches(book: Book, clause: string) {
    AllFragmentsMatch(book, Fragments(clause))
  }

  /** Enumerable.All over the clauses, first to last. */
  predicate AllClausesMatch(book: Book, clauses: seq<string>) {
    |clauses| == 0 || (ClauseMatches(book, clauses[0]) && AllClausesMatch(book, clauses[1..]))
  }

  /** The book satisfies every " & " clause of the query. */
  predicate BookMatches(book: Book, query: string) {
    AllClausesMatch(book, Clauses(query))
  }

  /** All over the fragments holds exactly when every fragment matches. */
  lemma {:induction false} AllFragmentsMatchIff(book: Book, fragments: seq<string>)
    ensures AllFragmentsMatch(book, fragments) <==> forall k :: 0 <= k < |fragments| ==> FragmentMatches(book, fragments[k])
  {
    if |fragments| > 0 {
      AllFragmentsMatchIff(book, fragments[1..]);
      assert forall k :: 1 <= k < |fragments| ==> fragments[k] == fragments[1..][k - 1];
    }
  }

  /** All over the clauses holds exactly when every clause matches. */
  lemma {:induction false} AllClausesMatchIff(book: Book, clauses: seq<string>)
    ensures AllClausesMatch(book, clauses) <==> forall k :: 0 <= k < |clauses| ==> ClauseMatches(book, clauses[k])
  {
    if |clauses| > 0 {
      AllClausesMatchIff(book, clauses[1..]);
      assert forall k :: 1 <= k < |clauses| ==> clauses[k] == clauses[1..][k - 1];
    }
  }

  /** The books that match the query, in catalog order, duplicates kept. */
  function MatchingBooks(books: seq<Book>, query: string): seq<Book> {
    Filter(books, b => BookMatches(b, query))
  }

  predicate TitlesAndPublishersSet(books: seq<Book>) {
    forall i :: 0 <= i < |books| ==> books[i].title.Some? && books[i].publisher.Some?
  }

  /** FindBooks' inner loop: the clauses are tried in order and the first one that fails
      stops the search. */
  method MatchesEveryClause(book: Book, andQueries: seq<string>) returns (allQueriesMatch: bool)
    ensures allQueriesMatch == AllClausesMatch(book, andQueries)
  {
    allQueriesMatch := true;
    for j := 0 to |andQueries|
      invariant allQueriesMatch
      invariant forall k :: 0 <= k < j ==> ClauseMatches(book, andQueries[k])
    {
      var queryMatch := ClauseMatches(book, andQueries[j]);
      if !queryMatch {
        allQueriesMatch := false;
        break;
      }
    }
    AllClausesMatchIff(book, andQueries);
  }

  /** FindBooks: a new list of the books matching every clause of searchString. */
  method FindBooks(books: seq<Book>, searchString: string) returns (foundBooks: seq<Book>)
    requires TitlesAndPublishersSet(books)
    ensures foundBooks == MatchingBooks(books, searchString)
  {
    foundBooks := [];
    var andQueries := Clauses(searchString);
    for i := 0 to |books|
      invariant foundBooks == MatchingBooks(books[..i], searchString)
    {
      var book := books[i];
      var allQueriesMatch := MatchesEveryClause(book, andQueries);
      if allQueriesMatch {
        foundBooks := foundBooks + [book];
      }
      MatchingBooksSnoc(books, i, searchString);
    }
    assert books[..|books|] == books;
  }

  /** Extending the prefix by one book keeps that book exactly when it matches. */
  lemma MatchingBooksSnoc(books: seq<Book>, i: nat, query: string)
    requires i < |books|
    ensures MatchingBooks(books[..i + 1], query)
      == MatchingBooks(books[..i], query) + (if BookMatches(books[i], query) then [books[i]] else [])
  {
    FilterSnoc(books, i, b => BookMatches(b, query));
  }

  /** Every book that matches is kept, as often as it occurs; every other book is dropped. */
  lemma MatchingBooksMultiplicity(books: seq<Book>, query: string, b: Book)
    ensures multiset(MatchingBooks(books, query))[b]
      == if BookMatches(b, query) then multiset(books)[b] else 0
  {
    FilterMultiplicity(books, b => BookMatches(b, query), b);
  }

  /** Filtering commutes with concatenation, so the catalog order is kept. */
  lemma MatchingBooksAppend(a: seq<Book>, b: seq<Book>, query: string)
    ensures MatchingBooks(a + b, query) == MatchingBooks(a, query) + MatchingBooks(b, query)
  {
    FilterAppend(a, b, b => BookMatches(b, query));
  }

  /** The empty fragment is found in any non-null title. */
  lemma EmptyFragmentMatches(book: Book)
    requires book.title.Some?
    ensures FragmentMatches(book, "")
  {
    assert OccursAt(Lower(book.title.value), Lower(""), 0);
  }

  /** A query of stars only (the empty query included) matches every book. */
  lemma StarsOnlyQueryMatchesAll(book: Book, query: string)
    requires book.title.Some?
    requires forall i :: 0 <= i < |query| ==> query[i] == '*'
    ensures BookMatches(book, query)
  {
    assert Clauses(query) == [query] by {
      forall i | 0 <= i <= |query| - |QueryDelimiter| ensures !OccursAt(query, QueryDelimiter, i) {
        assert query[i + 1] == '*';
      }
      SplitNone(query, QueryDelimiter);
    }
    assert Fragments(query) == [""] by {
      TrimAllDropped(query, IsStar);
      SplitNone("", "*");
    }
    EmptyFragmentMatches(book);
    assert AllFragmentsMatch(book, [""]) by {
      assert [""][1..] == [];
    }
    assert ClauseMatches(book, query);
    assert AllClausesMatch(book, [query]) by {
      assert [query][1..] == [];
    }
  }

  /** Fragments are tested independently: the clause x*y matches exactly when x and y are
      each found somewhere, so y*x matches the same books. */
  lemma FragmentOrderIrrelevant(book: Book, x: string, y: string)
    requires |x| > 0 && |y| > 0 && '*' !in x && '*' !in y
    ensures ClauseMatches(book, x + "*" + y) <==> FragmentMatches(book, x) && FragmentMatches(book, y)
    ensures ClauseMatches(book, x + "*" + y) <==> ClauseMatches(book, y + "*" + x)
  {
    assert ClauseMatches(book, x + "*" + y) <==> FragmentMatches(book, x) && FragmentMatches(book, y) by {
      TwoFragments(x, y);
      PairMatches(book, x, y);
    }
    assert ClauseMatches(book, y + "*" + x) <==> FragmentMatches(book, y) && FragmentMatches(book, x) by {
      TwoFragments(y, x);
      PairMatches(book, y, x);
    }
  }

  lemma PairMatches(book: Book, x: string, y: string)
    ensures AllFragmentsMatch(book, [x, y]) <==> FragmentMatches(book, x) && FragmentMatches(book, y)
  {
    assert [x, y][1..] == [y] && [y][1..] == [];
    assert AllFragmentsMatch(book, [y]) <==> FragmentMatches(book, y);
    assert AllFragmentsMatch(book, [x, y]) <==> FragmentMatches(book, x) && AllFragmentsMatch(book, [y]);
  }

  lemma TwoFragments(x: string, y: string)
    requires |x| > 0 && |y| > 0 && '*' !in x && '*' !in y
    ensures Fragments(x + "*" + y) == [x, y]
  {
    var c := x + "*" + y;
    assert c[0] == x[0] && c[|c| - 1] == y[|y| - 1];
    TrimKept(c, IsStar);
    assert Join([x, y], "*") == c;
    SplitUnique([x, y], '*');
  }
}
