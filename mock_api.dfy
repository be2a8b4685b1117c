/** The in-memory service: the shared catalog of book objects and the borrow
    ledger, with the operations that read and update them in place. */
module MockApi {
  import opened Types
  import opened Inventory
  import MockData

  class Library {
    /** The catalog, in insertion order; each entry is a shared object. */
    var books: seq<Book>
    /** The borrow ledger. */
    var borrowRecords: seq<BorrowRecord>

    /** Every catalog entry is a separate object, so a change to one book
        shows up at one position only. */
    ghost predicate Valid()
      reads this
    {
      forall i, j :: 0 <= i < j < |books| ==> books[i] != books[j]
    }

    /** The field values of the catalog's books, in order. */
    function Catalog(): seq<BookData>
      reads this, books
    {
      seq(|books|, i reads this, books requires 0 <= i < |books| => books[i].Data())
    }

    /** The seeded state: four fresh books and an empty ledger. */
    constructor ()
      ensures Valid()
      ensures forall i :: 0 <= i < |books| ==> fresh(books[i])
      ensures Catalog() == MockData.InitialBooks()
      ensures AllStockOk(Catalog())
      ensures borrowRecords == []
    {
      var seed := MockData.InitialBooks();
      var b0 := new Book(seed[0]);
      var b1 := new Book(seed[1]);
      var b2 := new Book(seed[2]);
      var b3 := new Book(seed[3]);
      books := [b0, b1, b2, b3];
      borrowRecords := [];
    }

    /** The catalog itself: the same objects, in order; nothing changes. */
    method GetBooks() returns (bs: seq<Book>)
      ensures bs == books
    {
      bs := books;
    }

    /** A left-to-right search of the catalog for the first book with `id`. */
    method Find(id: string) returns (r: Option<nat>)
      ensures r == FindIndex(Catalog(), id)
    {
      var i := 0;
      while i < |books|
        invariant 0 <= i <= |books|
        invariant forall j :: 0 <= j < i ==> books[j].id != id
      {
        if books[i].id == id {
          FindIndexFirst(Catalog(), id, i);
          return Some(i);
        }
        i := i + 1;
      }
      r := None;
    }

    /** Take one copy of the first book with `id`, in place. */
    method BorrowBook(id: string) returns (r: Result<Book>)
      requires Valid()
      modifies books
      ensures Valid() && unchanged(this)
      ensures r.Ok? <==> Borrow(old(Catalog()), id).Ok?
      ensures r.Err? ==>
        && r.error == Borrow(old(Catalog()), id).error
        && Catalog() == old(Catalog())
      ensures r.Ok? ==>
        && Catalog() == Borrow(old(Catalog()), id).value.catalog
        && r.value == books[FindIndex(old(Catalog()), id).value]
        && r.value.Data() == Borrow(old(Catalog()), id).value.book
      ensures old(AllStockOk(Catalog())) ==> AllStockOk(Catalog())
    {
      ghost var before := Catalog();
      var k := Find(id);
      if k.None? || books[k.value].availableStock <= 0 {
        return Err(BookNotAvailable);
      }
      var i := k.value;
      var book := books[i];
      book.availableStock := book.availableStock - 1;
      assert Catalog() == before[i := book.Data()];
      if AllStockOk(before) {
        BorrowKeepsStock(before, id);
      }
      r := Ok(book);
    }

    /** Put back one copy of the first book with `id`, in place. */
    method ReturnBook(id: string) returns (r: Result<Book>)
      requires Valid()
      modifies books
      ensures Valid() && unchanged(this)
      ensures r.Ok? <==> Return(old(Catalog()), id).Ok?
      ensures r.Err? ==>
        && r.error == Return(old(Catalog()), id).error
        && Catalog() == old(Catalog())
      ensures r.Ok? ==>
        && Catalog() == Return(old(Catalog()), id).value.catalog
        && r.value == books[FindIndex(old(Catalog()), id).value]
        && r.value.Data() == Return(old(Catalog()), id).value.book
      ensures old(AllStockOk(Catalog())) ==> AllStockOk(Catalog())
    {
      ghost var before := Catalog();
      var k := Find(id);
      if k.None? || books[k.value].availableStock >= books[k.value].totalStock {
        return Err(InvalidReturn);
      }
      var i := k.value;
      var book := books[i];
      book.availableStock := book.availableStock + 1;
      assert Catalog() == before[i := book.Data()];
      if AllStockOk(before) {
        ReturnKeepsStock(before, id);
      }
      r := Ok(book);
    }
  }

  /** A borrow and a return on the seeded library, as in the test file:
      borrowing "1" leaves two copies, and returning it restores the seed. */
  method SeededBorrowThenReturn() returns (left: int, restored: bool)
    ensures left == 2
    ensures restored
  {
    var lib := new Library();
    var seed := MockData.InitialBooks();
    assert FirstMatch(seed, "1", 0);
    BorrowMatched(seed, "1", 0);
    BorrowThenReturn(seed, "1");
    var b := lib.BorrowBook("1");
    left := lib.books[0].availableStock;
    var back := lib.ReturnBook("1");
    restored := back.Ok? && lib.Catalog() == seed;
  }

  /** The refusals on the seeded library: a book that was never borrowed
      cannot be returned, and an unknown id cannot be borrowed. */
  method SeededRefusals() returns (notBorrowed: Result<Book>, unknown: Result<Book>)
    ensures notBorrowed == Err(InvalidReturn)
    ensures unknown == Err(BookNotAvailable)
  {
    var lib := new Library();
    var seed := MockData.InitialBooks();
    assert FirstMatch(seed, "1", 0);
    ReturnMatched(seed, "1", 0);
    BorrowUnknown(seed, "9");
    notBorrowed := lib.ReturnBook("1");
    unknown := lib.BorrowBook("9");
  }
}
