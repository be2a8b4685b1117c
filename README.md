# Library stock bookkeeping (hexad-library mock API)

This project models the in-memory service behind a small library demo. The
service keeps a shared catalog of book objects. Each book has an id, a title,
an author, a total stock and an available stock. The service offers three
operations:

- `getBooks` hands back the catalog itself.
- `borrowBook(id)` looks up the first book with that id. It takes one copy
  away, or it fails when there is no such book or no copy left.
- `returnBook(id)` is its mirror. It puts one copy back, or it fails when
  there is no such book or every copy is already on the shelf.

The catalog starts with four seeded books, and the borrow ledger starts
empty.

The project has four modules:

- `Types` (`types.dfy`) declares the record shapes. `Book` is a class
  because the service changes a book's `availableStock` in place and
  returns that same object. `BookData` is the value of a book's fields at
  one moment. `BorrowRecord` and `Status` describe ledger entries.
- `Inventory` (`inventory.dfy`) states the bookkeeping on values.
  `FindIndex` is the left-to-right search, which stops at the first match.
  `Borrow` and `Return` map one catalog (a `seq<BookData>`) to the next
  one, or to an error. The lemmas state what the operations promise.
- `MockData` (`mock_data.dfy`) holds the seeded catalog.
- `MockApi` (`mock_api.dfy`) holds the class `Library`. It owns the shared
  `books` sequence of `Book` objects and the `borrowRecords` ledger. Its
  methods update the matched object in place. Each method's `ensures` ties
  the new catalog and the result to `Borrow`/`Return` applied to the old
  catalog.

A failure is an error value: `BookNotAvailable` for a borrow and
`InvalidReturn` for a return. There is one variant for each exception the
service raises. An unknown id and an exhausted stock raise the same
exception, so the model gives them the same error value.

The test file `src/tests/borrowReturn.test.ts` calls a richer service. In
that service, borrow and return take a user, write ledger entries and
enforce a two-book limit per user. The service code in
`src/mock/mockApi.ts` does none of this. This model follows the code.

## Model

| member | source | states |
|---|---|---|
| `Inventory.FindIndex` | src/mock/mockApi.ts:11 | the lookup yields the position of the first book whose id matches, or nothing exactly when no book has that id |
| `Inventory.FindIndexFirst` | src/mock/mockApi.ts:11 | whichever position is the first match, the lookup finds exactly that one |
| `Inventory.FindIndexSameIds` | src/mock/mockApi.ts:11 | the lookup depends only on the ids, so two catalogs with equal ids give the same position |
| `Inventory.DistinctIdsLookup` | src/mock/mockData.ts:3-32 | when ids are pairwise distinct, looking up a book's id finds that book's own position |
| `Inventory.BorrowUnknown` | src/mock/mockApi.ts:11-14 | borrowing an id no book has fails with the borrow error |
| `Inventory.BorrowMatched` | src/mock/mockApi.ts:11-16 | borrowing the first matching book succeeds if and only if its available stock is positive; on success that book alone drops by exactly one, all other fields and books are unchanged, and the changed book is returned; otherwise the borrow error |
| `Inventory.ReturnUnknown` | src/mock/mockApi.ts:20-23 | returning an id no book has fails with the return error |
| `Inventory.ReturnMatched` | src/mock/mockApi.ts:20-25 | returning the first matching book succeeds if and only if its available stock is below its total; on success that book alone rises by exactly one, all else unchanged, and the changed book is returned; otherwise the return error |
| `Inventory.BorrowKeepsStock` | src/mock/mockApi.ts:12-15 | a successful borrow keeps `0 <= availableStock <= totalStock` for every book |
| `Inventory.ReturnKeepsStock` | src/mock/mockApi.ts:21-24 | a successful return keeps `0 <= availableStock <= totalStock` for every book |
| `Inventory.BorrowThenReturn` | src/mock/mockApi.ts:10-26 | on a catalog within the stock invariant, a return right after a successful borrow of the same id succeeds and restores the catalog exactly |
| `Inventory.ReturnThenBorrow` | src/mock/mockApi.ts:10-26 | on a catalog within the stock invariant, a borrow right after a successful return of the same id succeeds and restores the catalog exactly |
| `MockData.InitialBooks` | src/mock/mockData.ts:3-32 | the seed has four books with ids "1" to "4", pairwise distinct, every total positive and every copy available, so the stock invariant holds from the start |
| `MockApi.Library.constructor` | src/mock/mockData.ts:3-34 | the initial state is the seeded catalog, held in four separate, newly created objects, and an empty borrow ledger |
| `MockApi.Library.GetBooks` | src/mock/mockApi.ts:4-8 | returns the shared catalog itself (the same objects, in order) and changes nothing |
| `MockApi.Library.Find` | src/mock/mockApi.ts:11 | the scan over the book objects stops at the position `FindIndex` names for the current catalog |
| `MockApi.Library.BorrowBook` | src/mock/mockApi.ts:10-17 | succeeds exactly when `Borrow` does. On success it leaves the catalog as `Borrow` says and returns the matched object itself. On failure it changes nothing. It keeps the stock invariant, and neither the ledger nor the sequence of objects changes |
| `MockApi.Library.ReturnBook` | src/mock/mockApi.ts:19-26 | succeeds exactly when `Return` does. On success it leaves the catalog as `Return` says and returns the matched object itself. On failure it changes nothing. It keeps the stock invariant, and neither the ledger nor the sequence of objects changes |
| `MockApi.SeededBorrowThenReturn` | src/tests/borrowReturn.test.ts:59-69 | on a newly built seeded library, borrowing "1" leaves 2 copies and returning it restores the seeded catalog exactly |
| `MockApi.SeededRefusals` | src/tests/borrowReturn.test.ts:74-80 | on a newly built seeded library, returning "1", which was never borrowed, fails with the return error, and borrowing the unknown id "9" fails with the borrow error |

## Left out

- The user-aware API that the test file `src/tests/borrowReturn.test.ts` calls is left out because `src/mock/mockApi.ts` does not implement it. This covers the extra user arguments to `borrowBook`/`returnBook`, writes to the borrow ledger, the two-book limit, 14-day due dates, `addBook`, `getBorrowRecords` and `getActiveBorrowsByUser`.
- `BorrowRecord` is a datatype only, because no operation in the service reads or writes it. Its status is one of two values, its return date is optional, and it copies the book's title and author. These facts hold by its declaration, and no member states them.
- The delay in `getBooks` is left out. The `async`/`Promise` wrapping is not modelled either. Each operation is one synchronous step, and a thrown exception is an `Err` result.
- The text of error messages is not modelled. Each kind of failure is one error value.
- Stock counts are JavaScript numbers, which are floating point. The model uses unbounded integers, so fractional or non-finite stock values are not modelled.
- Code outside the service can write a book's fields directly between calls. The test setup does this (`src/tests/borrowReturn.test.ts:9`, `:18`). `Library` describes only its own operations. Its stock-invariant guarantee is therefore conditional: if the invariant held before a call, it holds after.
- `Library.Valid` requires the catalog's entries to be separate objects. The seeded catalog meets this. A catalog that listed one object twice would see a change at both positions, and that case is not modelled.
