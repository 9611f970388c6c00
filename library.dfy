/** LibraryManager/Library.cs: the catalog of rooms, rows, shelves and books.
    AddBook finds or creates the room, row and shelf a book goes on and appends the book;
    FindBookByISBN and GetInventoryList are queries over the four lists. */
module LibraryManager {
  import opened Wrappers
  import opened Seqs
  import opened Books

  /** The ID a Room, Row or BookShelf created by AddBook keeps: the code never assigns one,
      so it stays at the default of int. */
  const UnassignedID: int := 0

  datatype Room = Room(roomID: int, roomNumber: int)
  datatype Row = Row(rowID: int, rowNumber: int, roomID: int)
  datatype BookShelf = BookShelf(shelfID: int, shelfNumber: int, rowID: int)

  /** The lookup keys of AddBook's three FirstOrDefault searches. */
  function RoomKey(r: Room): int { r.roomNumber }
  function RowKey(r: Row): (int, int) { (r.rowNumber, r.roomID) }
  function ShelfKey(s: BookShelf): (int, int) { (s.shelfNumber, s.rowID) }

  /** The four lists of a Library at one moment. */
  datatype Catalog = Catalog(rooms: seq<Room>, rows: seq<Row>, shelves: seq<BookShelf>, books: seq<Book>)

  // ---------------------------------------------------------------------------
  // AddBook
  // ---------------------------------------------------------------------------

  /** Where AddBook puts a book: the lists after the three find-or-create steps, and the
      room, row and shelf they resolved to. */
  datatype Placement = Placement(rooms: seq<Room>, rows: seq<Row>, shelves: seq<BookShelf>,
                                 room: Room, row: Row, shelf: BookShelf)

  /** The list grows by `created` exactly when no element has key k; otherwise it is unchanged. */
  ghost predicate FoundOrAdded<T, K>(before: seq<T>, after: seq<T>, key: T -> K, k: K, created: T) {
    && ((exists j :: 0 <= j < |before| && key(before[j]) == k) ==> after == before)
    && ((forall j :: 0 <= j < |before| ==> key(before[j]) != k) ==> after == before + [created])
  }

  /** e is the first element of s with key k. */
  ghost predicate IsFirstWithKey<T, K>(s: seq<T>, key: T -> K, k: K, e: T) {
    FirstWithKey(s, key, k).Some? && s[FirstWithKey(s, key, k).value] == e
  }

  /** Room by number, then row by number within that room's ID, then shelf by number within
      that row's ID; each is the first match or a new entry with UnassignedID appended. */
  function Place(rooms: seq<Room>, rows: seq<Row>, shelves: seq<BookShelf>,
                 roomNumber: int, rowNumber: int, shelfNumber: int): (p: Placement)
    ensures FoundOrAdded(rooms, p.rooms, RoomKey, roomNumber, Room(UnassignedID, roomNumber))
    ensures FoundOrAdded(rows, p.rows, RowKey, (rowNumber, p.room.roomID),
                         Row(UnassignedID, rowNumber, p.room.roomID))
    ensures FoundOrAdded(shelves, p.shelves, ShelfKey, (shelfNumber, p.row.rowID),
                         BookShelf(UnassignedID, shelfNumber, p.row.rowID))
    ensures IsFirstWithKey(p.rooms, RoomKey, roomNumber, p.room)
    ensures IsFirstWithKey(p.rows, RowKey, (rowNumber, p.room.roomID), p.row)
    ensures IsFirstWithKey(p.shelves, ShelfKey, (shelfNumber, p.row.rowID), p.shelf)
  {
    var (room, rooms') := FindOrCreate(rooms, RoomKey, roomNumber, Room(UnassignedID, roomNumber));
    var (row, rows') := FindOrCreate(rows, RowKey, (rowNumber, room.roomID),
                                     Row(UnassignedID, rowNumber, room.roomID));
    var (shelf, shelves') := FindOrCreate(shelves, ShelfKey, (shelfNumber, row.rowID),
                                          BookShelf(UnassignedID, shelfNumber, row.rowID));
    Placement(rooms', rows', shelves', room, row, shelf)
  }

  /** Placing again with the same numbers finds everything the first placement found or made:
      no new Room, Row or BookShelf, and the same shelf. */
  lemma PlaceIdempotent(rooms: seq<Room>, rows: seq<Row>, shelves: seq<BookShelf>,
                        roomNumber: int, rowNumber: int, shelfNumber: int)
    ensures var p := Place(rooms, rows, shelves, roomNumber, rowNumber, shelfNumber);
            var q := Place(p.rooms, p.rows, p.shelves, roomNumber, rowNumber, shelfNumber);
            q.rooms == p.rooms && q.rows == p.rows && q.shelves == p.shelves && q.shelf == p.shelf
  {
    var p := Place(rooms, rows, shelves, roomNumber, rowNumber, shelfNumber);
    var q := Place(p.rooms, p.rows, p.shelves, roomNumber, rowNumber, shelfNumber);
    FirstFound(p.rooms, RoomKey, roomNumber, Room(UnassignedID, roomNumber));
    assert q.room == p.room;
    FirstFound(p.rows, RowKey, (rowNumber, p.room.roomID), Row(UnassignedID, rowNumber, p.room.roomID));
    assert q.row == p.row;
    FirstFound(p.shelves, ShelfKey, (shelfNumber, p.row.rowID), BookShelf(UnassignedID, shelfNumber, p.row.rowID));
  }

  /** Find-or-create on a list that has an element with key k returns the first such
      element and leaves the list alone. */
  lemma FirstFound<T, K>(s: seq<T>, key: T -> K, k: K, created: T)
    requires key(created) == k && FirstWithKey(s, key, k).Some?
    ensures FindOrCreate(s, key, k, created) == (s[FirstWithKey(s, key, k).value], s)
  {
  }

  // ---------------------------------------------------------------------------
  // GetInventoryList
  // ---------------------------------------------------------------------------

  /** The optional filters of GetInventoryList; None is a null int?. */
  datatype InventoryFilter = InventoryFilter(roomNumber: int, rowNumber: Option<int>, shelfNumber: Option<int>)

  datatype InventoryError = ShelfWithoutRow

  function InventoryMessage(e: InventoryError): string {
    match e
    case ShelfWithoutRow => "When shelfNumber is provided, rowNumber must also be provided."
  }

  /** One element of the three-way join: a book (by its position in Books) with a shelf,
      a row and a room it joins to. */
  datatype Entry = Entry(book: nat, shelf: BookShelf, row: Row, room: Room)

  /** The rooms joined to a (book, shelf, row) entry, in the order of rooms. */
  function RoomEntries(i: nat, shelf: BookShelf, row: Row, rooms: seq<Room>): seq<Entry> {
    if |rooms| == 0 then []
    else
      var last := rooms[|rooms| - 1];
      RoomEntries(i, shelf, row, rooms[..|rooms| - 1])
        + (if last.roomID == row.roomID then [Entry(i, shelf, row, last)] else [])
  }

  /** The rows joined to a (book, shelf) pair, each followed through to its rooms. */
  function RowEntries(i: nat, shelf: BookShelf, rows: seq<Row>, rooms: seq<Room>): seq<Entry> {
    if |rows| == 0 then []
    else
      var last := rows[|rows| - 1];
      RowEntries(i, shelf, rows[..|rows| - 1], rooms)
        + (if last.rowID == shelf.rowID then RoomEntries(i, shelf, last, rooms) else [])
  }

  /** The shelves joined to book i, each followed through to its rows and rooms. */
  function ShelfEntries(i: nat, shelfID: int, shelves: seq<BookShelf>, rows: seq<Row>, rooms: seq<Room>)
    : seq<Entry>
  {
    if |shelves| == 0 then []
    else
      var last := shelves[|shelves| - 1];
      ShelfEntries(i, shelfID, shelves[..|shelves| - 1], rows, rooms)
        + (if last.shelfID == shelfID then RowEntries(i, last, rows, rooms) else [])
  }

  /** The room join holds exactly the entries of that book, shelf and row with a room
      whose ID the row names. */
  lemma {:induction false} RoomEntriesMembers(i: nat, shelf: BookShelf, row: Row, rooms: seq<Room>)
    ensures forall e :: e in RoomEntries(i, shelf, row, rooms) <==>
      e.book == i && e.shelf == shelf && e.row == row && e.room in rooms && e.room.roomID == row.roomID
  {
    if |rooms| > 0 {
      RoomEntriesMembers(i, shelf, row, rooms[..|rooms| - 1]);
      assert rooms == rooms[..|rooms| - 1] + [rooms[|rooms| - 1]];
    }
  }

  /** The row join holds exactly the entries of that book and shelf with a row the shelf
      names and a room that row names. */
  lemma {:induction false} RowEntriesMembers(i: nat, shelf: BookShelf, rows: seq<Row>, rooms: seq<Room>)
    ensures forall e :: e in RowEntries(i, shelf, rows, rooms) <==>
      e.book == i && e.shelf == shelf && e.row in rows && e.row.rowID == shelf.rowID
      && e.room in rooms && e.room.roomID == e.row.roomID
  {
    if |rows| > 0 {
      var last := rows[|rows| - 1];
      RowEntriesMembers(i, shelf, rows[..|rows| - 1], rooms);
      RoomEntriesMembers(i, shelf, last, rooms);
      assert rows == rows[..|rows| - 1] + [last];
    }
  }

  /** The shelf join holds exactly the entries of book i with a shelf carrying its shelf
      ID, a row that shelf names and a room that row names. */
  lemma {:induction false} ShelfEntriesMembers(i: nat, shelfID: int, shelves: seq<BookShelf>, rows: seq<Row>, rooms: seq<Room>)
    ensures forall e :: e in ShelfEntries(i, shelfID, shelves, rows, rooms) <==>
      e.book == i && e.shelf in shelves && e.shelf.shelfID == shelfID
      && e.row in rows && e.row.rowID == e.shelf.rowID
      && e.room in rooms && e.room.roomID == e.row.roomID
  {
    if |shelves| > 0 {
      var last := shelves[|shelves| - 1];
      ShelfEntriesMembers(i, shelfID, shelves[..|shelves| - 1], rows, rooms);
      RowEntriesMembers(i, last, rows, rooms);
      assert shelves == shelves[..|shelves| - 1] + [last];
    }
  }

  /** Books.Join(BookShelves).Join(Rows).Join(Rooms) over the first n books: LINQ's Join keeps
      the outer order and, for each outer element, the order of the matching inner ones. */
  function Joined(c: Catalog, n: nat): (r: seq<Entry>)
    requires n <= |c.books|
  {
    if n == 0 then []
    else
      Joined(c, n - 1) + ShelfEntries(n - 1, c.books[n - 1].shelfID, c.shelves, c.rows, c.rooms)
  }

  /** The Where clause: the room number matches and so do the row and shelf numbers when given. */
  predicate Wanted(e: Entry, f: InventoryFilter) {
    && e.room.roomNumber == f.roomNumber
    && (f.rowNumber.None? || e.row.rowNumber == f.rowNumber.value)
    && (f.shelfNumber.None? || e.shelf.shelfNumber == f.shelfNumber.value)
  }

  function Where(es: seq<Entry>, f: InventoryFilter): seq<Entry> {
    Filter(es, e => Wanted(e, f))
  }

  /** Where keeps exactly the wanted entries. */
  lemma WhereMembers(es: seq<Entry>, f: InventoryFilter)
    ensures forall e :: e in Where(es, f) <==> e in es && Wanted(e, f)
  {
    FilterMembers(es, e => Wanted(e, f));
  }

  /** The join over the first n books only holds entries of those books. */
  lemma {:induction false} JoinedBooksBelow(c: Catalog, n: nat)
    requires n <= |c.books|
    ensures forall e :: e in Joined(c, n) ==> e.book < n
  {
    if n > 0 {
      JoinedBooksBelow(c, n - 1);
      ShelfEntriesMembers(n - 1, c.books[n - 1].shelfID, c.shelves, c.rows, c.rooms);
    }
  }

  lemma WhereAppend(a: seq<Entry>, b: seq<Entry>, f: InventoryFilter)
    ensures Where(a + b, f) == Where(a, f) + Where(b, f)
  {
    FilterAppend(a, b, e => Wanted(e, f));
  }

  /** The Select clause: the book of each entry, by position. */
  function SelectBooks(es: seq<Entry>): (r: seq<nat>)
    ensures |r| == |es| && forall k :: 0 <= k < |es| ==> r[k] == es[k].book
  {
    seq(|es|, k requires 0 <= k < |es| => es[k].book)
  }

  /** Book i joins some shelf, row and room that pass the filter. */
  predicate Located(c: Catalog, f: InventoryFilter, i: nat)
    requires i < |c.books|
  {
    exists s, r, rm | s in c.shelves && r in c.rows && rm in c.rooms ::
      && s.shelfID == c.books[i].shelfID && r.rowID == s.rowID && rm.roomID == r.roomID
      && Wanted(Entry(i, s, r, rm), f)
  }

  /** The positions, in increasing order, of the first n books that are located. */
  function InventoryIndices(c: Catalog, f: InventoryFilter, n: nat): (r: seq<nat>)
    requires n <= |c.books|
    ensures forall k :: 0 <= k < |r| ==> r[k] < n
  {
    if n == 0 then []
    else InventoryIndices(c, f, n - 1) + (if Located(c, f, n - 1) then [n - 1] else [])
  }

  /** The reference list holds exactly the located positions below n, each once, in
      increasing order. */
  lemma {:induction false} InventoryIndicesSpec(c: Catalog, f: InventoryFilter, n: nat)
    requires n <= |c.books|
    ensures forall k :: 0 <= k < |InventoryIndices(c, f, n)| ==> Located(c, f, InventoryIndices(c, f, n)[k])
    ensures forall i :: 0 <= i < n && Located(c, f, i) ==> i in InventoryIndices(c, f, n)
    ensures forall a, b :: 0 <= a < b < |InventoryIndices(c, f, n)| ==>
      InventoryIndices(c, f, n)[a] < InventoryIndices(c, f, n)[b]
  {
    if n > 0 {
      InventoryIndicesSpec(c, f, n - 1);
    }
  }

  /** Books.Join(...).Where(...).Select(...).Distinct(), with Distinct over book positions:
      the query's result. */
  function Inventory(c: Catalog, f: InventoryFilter): seq<nat> {
    Distinct(SelectBooks(Where(Joined(c, |c.books|), f)))
  }

  /** The join pipeline over the first n books picks exactly the located books, each once,
      in catalog order, however many shelves with the same ID a book joins. */
  lemma {:induction false} PipelineIsInventoryIndices(c: Catalog, f: InventoryFilter, n: nat)
    requires n <= |c.books|
    ensures Distinct(SelectBooks(Where(Joined(c, n), f))) == InventoryIndices(c, f, n)
  {
    if n == 0 {
      assert SelectBooks(Where(Joined(c, n), f)) == [];
    } else {
      PipelineIsInventoryIndices(c, f, n - 1);
      PipelineStep(c, f, n);
    }
  }

  /** Book n - 1's entries extend the pipeline's result by n - 1 exactly when that book is
      located. */
  lemma PipelineStep(c: Catalog, f: InventoryFilter, n: nat)
    requires 0 < n <= |c.books|
    requires Distinct(SelectBooks(Where(Joined(c, n - 1), f))) == InventoryIndices(c, f, n - 1)
    ensures Distinct(SelectBooks(Where(Joined(c, n), f))) == InventoryIndices(c, f, n)
  {
    JoinedStep(c, f, n);
    BlockStep(c, f, n - 1);
    InventoryIndicesSnoc(c, f, n);
  }

  /** The filtered, selected join over n books is the one over n - 1 books followed by the
      part for book n - 1. */
  lemma JoinedStep(c: Catalog, f: InventoryFilter, n: nat)
    requires 0 < n <= |c.books|
    ensures SelectBooks(Where(Joined(c, n), f))
      == SelectBooks(Where(Joined(c, n - 1), f))
         + SelectBooks(Where(ShelfEntries(n - 1, c.books[n - 1].shelfID, c.shelves, c.rows, c.rooms), f))
  {
    var i := n - 1;
    var block := ShelfEntries(i, c.books[i].shelfID, c.shelves, c.rows, c.rooms);
    WhereAppend(Joined(c, i), block, f);
    SelectAppend(Where(Joined(c, i), f), Where(block, f));
  }

  /** Book i's part of the selected join adds i to the Distinct list of the earlier books
      exactly when book i is located. */
  lemma BlockStep(c: Catalog, f: InventoryFilter, i: nat)
    requires i < |c.books|
    ensures Distinct(SelectBooks(Where(Joined(c, i), f))
                     + SelectBooks(Where(ShelfEntries(i, c.books[i].shelfID, c.shelves, c.rows, c.rooms), f)))
      == Distinct(SelectBooks(Where(Joined(c, i), f))) + (if Located(c, f, i) then [i] else [])
  {
    var earlier := SelectBooks(Where(Joined(c, i), f));
    var block := SelectBooks(Where(ShelfEntries(i, c.books[i].shelfID, c.shelves, c.rows, c.rooms), f));
    EarlierBooksBelow(c, f, i);
    BlockIsOneBook(c, f, i);
    DistinctAppendLater(earlier, i, block);
    BlockNonEmpty(c, f, i);
  }

  lemma InventoryIndicesSnoc(c: Catalog, f: InventoryFilter, n: nat)
    requires 0 < n <= |c.books|
    ensures InventoryIndices(c, f, n) == InventoryIndices(c, f, n - 1) + (if Located(c, f, n - 1) then [n - 1] else [])
  {
  }

  /** Copies of a position larger than all earlier ones add that position once, at the end. */
  lemma DistinctAppendLater(earlier: seq<nat>, i: nat, block: seq<nat>)
    requires forall k :: 0 <= k < |earlier| ==> earlier[k] < i
    requires forall k :: 0 <= k < |block| ==> block[k] == i
    ensures Distinct(earlier + block) == Distinct(earlier) + (if |block| == 0 then [] else [i])
  {
    DistinctAppendCopies(earlier, i, block);
  }

  lemma SelectAppend(a: seq<Entry>, b: seq<Entry>)
    ensures SelectBooks(a + b) == SelectBooks(a) + SelectBooks(b)
  {
  }

  /** Every book the filtered join over the first i books selects comes before i. */
  lemma EarlierBooksBelow(c: Catalog, f: InventoryFilter, i: nat)
    requires i <= |c.books|
    ensures forall k :: 0 <= k < |SelectBooks(Where(Joined(c, i), f))| ==> SelectBooks(Where(Joined(c, i), f))[k] < i
  {
    var w := Where(Joined(c, i), f);
    WhereMembers(Joined(c, i), f);
    JoinedBooksBelow(c, i);
    forall k | 0 <= k < |w| ensures w[k].book < i {
      assert w[k] in w;
    }
  }

  /** Book i's part of the filtered join selects only book i. */
  lemma BlockIsOneBook(c: Catalog, f: InventoryFilter, i: nat)
    requires i < |c.books|
    ensures forall k :: 0 <= k < |SelectBooks(Where(ShelfEntries(i, c.books[i].shelfID, c.shelves, c.rows, c.rooms), f))| ==>
      SelectBooks(Where(ShelfEntries(i, c.books[i].shelfID, c.shelves, c.rows, c.rooms), f))[k] == i
  {
    var w := Where(ShelfEntries(i, c.books[i].shelfID, c.shelves, c.rows, c.rooms), f);
    WhereMembers(ShelfEntries(i, c.books[i].shelfID, c.shelves, c.rows, c.rooms), f);
    ShelfEntriesMembers(i, c.books[i].shelfID, c.shelves, c.rows, c.rooms);
    forall k | 0 <= k < |w| ensures w[k].book == i {
      assert w[k] in w;
    }
  }

  /** Book i's part of the filtered join is non-empty exactly when the book is located. */
  lemma BlockNonEmpty(c: Catalog, f: InventoryFilter, i: nat)
    requires i < |c.books|
    ensures |Where(ShelfEntries(i, c.books[i].shelfID, c.shelves, c.rows, c.rooms), f)| > 0 <==> Located(c, f, i)
  {
    var block := Where(ShelfEntries(i, c.books[i].shelfID, c.shelves, c.rows, c.rooms), f);
    WhereMembers(ShelfEntries(i, c.books[i].shelfID, c.shelves, c.rows, c.rooms), f);
    ShelfEntriesMembers(i, c.books[i].shelfID, c.shelves, c.rows, c.rooms);
    if |block| > 0 {
      var e := block[0];
      assert e in block;
      assert e.shelf in c.shelves && e.row in c.rows && e.room in c.rooms;
    }
    if Located(c, f, i) {
      var s, r, rm :| s in c.shelves && r in c.rows && rm in c.rooms
        && s.shelfID == c.books[i].shelfID && r.rowID == s.rowID && rm.roomID == r.roomID
        && Wanted(Entry(i, s, r, rm), f);
      assert Entry(i, s, r, rm) in block;
    }
  }

  /** Shelves created by AddBook all keep UnassignedID, so a book put on a new shelf 2 also
      joins a new shelf 1 of the same row and is listed when shelf 1 is asked for. */
  lemma NewShelvesShareID(first: Book, second: Book)
    ensures var p1 := Place([], [], [], 1, 1, 1);
            var p2 := Place(p1.rooms, p1.rows, p1.shelves, 1, 1, 2);
            var c := Catalog(p2.rooms, p2.rows, p2.shelves,
                             [first.(shelfID := p1.shelf.shelfID), second.(shelfID := p2.shelf.shelfID)]);
            p2.shelves == [BookShelf(UnassignedID, 1, UnassignedID), BookShelf(UnassignedID, 2, UnassignedID)]
            && InventoryIndices(c, InventoryFilter(1, Some(1), Some(1)), 2) == [0, 1]
  {
    FirstPlacement();
    SecondPlacement();
    BothOnShelfOne(Catalog([Room(UnassignedID, 1)], [Row(UnassignedID, 1, UnassignedID)],
                           [BookShelf(UnassignedID, 1, UnassignedID), BookShelf(UnassignedID, 2, UnassignedID)],
                           [first.(shelfID := UnassignedID), second.(shelfID := UnassignedID)]));
  }

  /** Shelf 1 of row 1 of room 1 in an empty library: all three are created, with UnassignedID. */
  lemma FirstPlacement()
    ensures Place([], [], [], 1, 1, 1)
      == Placement([Room(UnassignedID, 1)], [Row(UnassignedID, 1, UnassignedID)],
                   [BookShelf(UnassignedID, 1, UnassignedID)],
                   Room(UnassignedID, 1), Row(UnassignedID, 1, UnassignedID), BookShelf(UnassignedID, 1, UnassignedID))
  {
  }

  /** Shelf 2 of the same row: room and row are found, the shelf is created with UnassignedID. */
  lemma SecondPlacement()
    ensures Place([Room(UnassignedID, 1)], [Row(UnassignedID, 1, UnassignedID)],
                  [BookShelf(UnassignedID, 1, UnassignedID)], 1, 1, 2)
      == Placement([Room(UnassignedID, 1)], [Row(UnassignedID, 1, UnassignedID)],
                   [BookShelf(UnassignedID, 1, UnassignedID), BookShelf(UnassignedID, 2, UnassignedID)],
                   Room(UnassignedID, 1), Row(UnassignedID, 1, UnassignedID), BookShelf(UnassignedID, 2, UnassignedID))
  {
    assert FirstWithKey([BookShelf(UnassignedID, 1, UnassignedID)], ShelfKey, (2, UnassignedID)).None?;
  }

  /** In a one-room, one-row catalog with shelves 1 and 2 sharing an ID, both books on that
      ID are listed for shelf 1. */
  lemma BothOnShelfOne(c: Catalog)
    requires c.rooms == [Room(UnassignedID, 1)] && c.rows == [Row(UnassignedID, 1, UnassignedID)]
    requires c.shelves == [BookShelf(UnassignedID, 1, UnassignedID), BookShelf(UnassignedID, 2, UnassignedID)]
    requires |c.books| == 2 && c.books[0].shelfID == UnassignedID && c.books[1].shelfID == UnassignedID
    ensures InventoryIndices(c, InventoryFilter(1, Some(1), Some(1)), 2) == [0, 1]
  {
    var f := InventoryFilter(1, Some(1), Some(1));
    var e := Entry(0, c.shelves[0], c.rows[0], c.rooms[0]);
    assert Wanted(e, f) && Wanted(e.(book := 1), f);
    assert Located(c, f, 0) && Located(c, f, 1);
    assert InventoryIndices(c, f, 1) == [0];
  }

  /** The books at the given positions. */
  function BooksAt(books: seq<Book>, indices: seq<nat>): (r: seq<Book>)
    requires forall k :: 0 <= k < |indices| ==> indices[k] < |books|
    ensures |r| == |indices| && forall k :: 0 <= k < |r| ==> r[k] == books[indices[k]]
  {
    seq(|indices|, k requires 0 <= k < |indices| => books[indices[k]])
  }

  function IsbnOf(b: Book): Option<string> { b.isbn }

  // ---------------------------------------------------------------------------
  // The Library
  // ---------------------------------------------------------------------------

  class Library {
    var rooms: seq<Room>
    var rows: seq<Row>
    var bookShelves: seq<BookShelf>
    var books: seq<Book>

    /** A new Library: four empty lists. */
    constructor()
      ensures rooms == [] && rows == [] && bookShelves == [] && books == []
    {
      rooms := [];
      rows := [];
      bookShelves := [];
      books := [];
    }

    function Snapshot(): Catalog
      reads this
    {
      Catalog(rooms, rows, bookShelves, books)
    }

    /** AddBook: find or create the room, the row and the shelf, stamp the shelf's ID on the
        book and append it to Books. */
    method AddBook(book: Book, roomNumber: int, rowNumber: int, shelfNumber: int)
      modifies this
      ensures var p := Place(old(rooms), old(rows), old(bookShelves), roomNumber, rowNumber, shelfNumber);
              rooms == p.rooms && rows == p.rows && bookShelves == p.shelves
              && books == old(books) + [book.(shelfID := p.shelf.shelfID)]
    {
      var room: Room;
      var foundRoom := FirstWithKey(rooms, RoomKey, roomNumber);
      if foundRoom.None? {
        room := Room(UnassignedID, roomNumber);
        rooms := rooms + [room];
      } else {
        room := rooms[foundRoom.value];
      }

      var row: Row;
      var foundRow := FirstWithKey(rows, RowKey, (rowNumber, room.roomID));
      if foundRow.None? {
        row := Row(UnassignedID, rowNumber, room.roomID);
        rows := rows + [row];
      } else {
        row := rows[foundRow.value];
      }

      var shelf: BookShelf;
      var foundShelf := FirstWithKey(bookShelves, ShelfKey, (shelfNumber, row.rowID));
      if foundShelf.None? {
        shelf := BookShelf(UnassignedID, shelfNumber, row.rowID);
        bookShelves := bookShelves + [shelf];
      } else {
        shelf := bookShelves[foundShelf.value];
      }

      books := books + [book.(shelfID := shelf.shelfID)];
    }

    /** FirstOrDefault over Books by ISBN; None for the argument is a null isbn, which finds
        the first book without an ISBN. */
    function FindBookByISBN(isbn: Option<string>): (r: Option<Book>)
      reads this
      ensures r.None? <==> forall i :: 0 <= i < |books| ==> books[i].isbn != isbn
      ensures r.Some? ==> exists i :: 0 <= i < |books| && books[i] == r.value && books[i].isbn == isbn
                                     && forall j :: 0 <= j < i ==> books[j].isbn != isbn
    {
      match FirstWithKey(books, IsbnOf, isbn)
      case None => None
      case Some(i) => Some(books[i])
    }

    /** GetInventoryList: the shelf-without-row check first, then the join, filter and
        Distinct, as the books at the positions the reference definition picks. */
    function GetInventoryList(roomNumber: int, rowNumber: Option<int>, shelfNumber: Option<int>)
      : (r: Result<seq<Book>, InventoryError>)
      reads this
      ensures r.Err? <==> shelfNumber.Some? && rowNumber.None?
      ensures r.Err? ==> r.error == ShelfWithoutRow
      ensures r.Ok? ==> r.value == BooksAt(books, InventoryIndices(Snapshot(), InventoryFilter(roomNumber, rowNumber, shelfNumber), |books|))
    {
      if shelfNumber.Some? && rowNumber.None? then Err(ShelfWithoutRow)
      else
        var c := Snapshot();
        var f := InventoryFilter(roomNumber, rowNumber, shelfNumber);
        PipelineIsInventoryIndices(c, f, |books|);
        Ok(BooksAt(books, Inventory(c, f)))
    }
  }
}
