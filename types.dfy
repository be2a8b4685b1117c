/** The record shapes of the library: a book in the catalog and a loan in
    the borrow ledger. */
module Types {

  datatype Option<T> = None | Some(value: T)

  /** The fields of one book at one moment: a value, used to state what the
      catalog holds before and after an operation. */
  datatype BookData = BookData(
    id: string,
    title: string,
    author: string,
    totalStock: int,
    availableStock: int)

  /** A catalog entry. The API changes `availableStock` of this very object
      and hands the object back to its caller, so a book is a reference. */
  class Book {
    var id: string
    var title: string
    var author: string
    var totalStock: int
    var availableStock: int

    constructor (d: BookData)
      ensures Data() == d
    {
      id := d.id;
      title := d.title;
      author := d.author;
      totalStock := d.totalStock;
      availableStock := d.availableStock;
    }

    /** The current field values of this book. */
    function Data(): (d: BookData)
      reads this
    {
      BookData(id, title, author, totalStock, availableStock)
    }
  }

  /** A loan is either still out or closed. */
  datatype Status = Borrowed | Returned

  /** A point in time, in milliseconds since the epoch. */
  type Date = int

  /** One loan of one copy to one user. It names the book by id and keeps a
      copy of its title and author as they were when the loan was made; the
      return date is present only once the loan is closed. */
  datatype BorrowRecord = BorrowRecord(
    id: string,
    bookId: string,
    userId: string,
    userName: string,
    bookTitle: string,
    bookAuthor: string,
    borrowDate: Date,
    dueDate: Date,
    returnDate: Option<Date>,
    status: Status)
}
