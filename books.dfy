/** The Book record (DTOs/Book.cs plus the Title and ISBN it inherits from LibraryItem)
    and the property table that stands in for reflection over it: each property's
    name, its declared type and its [FieldName] alias. */
module Books {
  import opened Wrappers

  datatype Property = ISBN | Title | Authors | NumberOfPages | Publisher | PublicationYear | ShelfID

  /** The declared C# type of a property, which decides how a parsed value is applied. */
  datatype PropertyType = IntType | StringListType | StringType

  /** A property's value, as reflection's GetValue would see it. */
  datatype Value = IntValue(i: int) | StringListValue(items: seq<string>) | StringValue(s: Option<string>)

  /** A book. A null string is None; a new Book has null strings, no authors and zeros. */
  datatype Book = Book(
    isbn: Option<string>,
    title: Option<string>,
    authors: seq<string>,
    numberOfPages: int,
    publisher: Option<string>,
    publicationYear: int,
    shelfID: int)

  const NewBook: Book := Book(None, None, [], 0, None, 0, 0)

  /** Typeof(Book).GetProperties() order: the properties Book declares, then the inherited ones. */
  const Properties: seq<Property> := [Authors, NumberOfPages, Publisher, PublicationYear, ShelfID, Title, ISBN]

  function Name(p: Property): string {
    match p
    case ISBN => "ISBN"
    case Title => "Title"
    case Authors => "Authors"
    case NumberOfPages => "NumberOfPages"
    case Publisher => "Publisher"
    case PublicationYear => "PublicationYear"
    case ShelfID => "ShelfID"
  }

  /** The [FieldName] attribute, where the property carries one. */
  function Alias(p: Property): Option<string> {
    match p
    case Authors => Some("Author")
    case PublicationYear => Some("Published")
    case _ => None
  }

  function TypeOf(p: Property): PropertyType {
    match p
    case NumberOfPages | PublicationYear | ShelfID => IntType
    case Authors => StringListType
    case ISBN | Title | Publisher => StringType
  }

  /** The value of property p of b; it always has the property's declared type. */
  function Get(b: Book, p: Property): (v: Value)
    ensures v.IntValue? <==> TypeOf(p) == IntType
    ensures v.StringListValue? <==> TypeOf(p) == StringListType
  {
    match p
    case ISBN => StringValue(b.isbn)
    case Title => StringValue(b.title)
    case Authors => StringListValue(b.authors)
    case NumberOfPages => IntValue(b.numberOfPages)
    case Publisher => StringValue(b.publisher)
    case PublicationYear => IntValue(b.publicationYear)
    case ShelfID => IntValue(b.shelfID)
  }

  /** Two books with the same value for every property are the same book. */
  lemma BookDeterminedByProperties(a: Book, b: Book)
    requires forall p :: Get(a, p) == Get(b, p)
    ensures a == b
  {
    assert Get(a, ISBN) == Get(b, ISBN) && Get(a, Title) == Get(b, Title);
    assert Get(a, Authors) == Get(b, Authors) && Get(a, NumberOfPages) == Get(b, NumberOfPages);
    assert Get(a, Publisher) == Get(b, Publisher) && Get(a, PublicationYear) == Get(b, PublicationYear);
    assert Get(a, ShelfID) == Get(b, ShelfID);
  }

  /** Type.GetProperty(key): the public property whose name is exactly key. */
  function PropertyNamed(key: string): (r: Option<Property>)
    ensures r.Some? ==> Name(r.value) == key
    ensures r.None? ==> forall p :: Name(p) != key
  {
    match key
    case "ISBN" => Some(ISBN)
    case "Title" => Some(Title)
    case "Authors" => Some(Authors)
    case "NumberOfPages" => Some(NumberOfPages)
    case "Publisher" => Some(Publisher)
    case "PublicationYear" => Some(PublicationYear)
    case "ShelfID" => Some(ShelfID)
    case _ => None
  }
}
