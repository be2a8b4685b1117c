/** The stock bookkeeping of the mock API, stated on values: a catalog is
    the sequence of its books' field values, and borrowing or returning maps
    one catalog to the next or fails. */
module Inventory {
  import opened Types

  /** The two failures the API raises: one for a borrow, one for a return. */
  datatype ApiError = BookNotAvailable | InvalidReturn

  datatype Result<T> = Ok(value: T) | Err(error: ApiError)

  /** The catalog after a successful operation, and the book it handed back. */
  datatype Change = Change(catalog: seq<BookData>, book: BookData)

  /** `i` is the position of the first book of `s` whose id is `id`. */
  predicate FirstMatch(s: seq<BookData>, id: string, i: nat)
  {
    i < |s| && s[i].id == id && forall j :: 0 <= j < i ==> s[j].id != id
  }

  /** The position a left-to-right search for `id` stops at, if any. */
  function FindIndex(s: seq<BookData>, id: string): (r: Option<nat>)
    ensures r.Some? ==> FirstMatch(s, id, r.value)
    ensures r.None? ==> forall j :: 0 <= j < |s| ==> s[j].id != id
    decreases |s|
  {
    if s == [] then None
    else if s[0].id == id then Some(0)
    else
      match FindIndex(s[1..], id)
      case None => None
      case Some(k) => Some(k + 1)
  }

  /** A book's stock invariant: no negative stock, never more than owned. */
  predicate StockOk(b: BookData)
  {
    0 <= b.availableStock <= b.totalStock
  }

  predicate AllStockOk(s: seq<BookData>)
  {
    forall i :: 0 <= i < |s| ==> StockOk(s[i])
  }

  predicate DistinctIds(s: seq<BookData>)
  {
    forall i, j :: 0 <= i < j < |s| ==> s[i].id != s[j].id
  }

  /** `t` is `s` with at most the available stock of book `i` changed: same
      length and order, same ids, titles, authors and totals, and every other
      book equal. */
  predicate OnlyStockAt(s: seq<BookData>, t: seq<BookData>, i: nat)
  {
    && |t| == |s|
    && i < |s|
    && t[i] == s[i].(availableStock := t[i].availableStock)
    && forall j :: 0 <= j < |s| && j != i ==> t[j] == s[j]
  }

  /** Borrow one copy of the first book with id `id`. */
  function Borrow(s: seq<BookData>, id: string): (r: Result<Change>)
  {
    match FindIndex(s, id)
    case None => Err(BookNotAvailable)
    case Some(i) =>
      if s[i].availableStock <= 0 then Err(BookNotAvailable)
      else
        var b := s[i].(availableStock := s[i].availableStock - 1);
        Ok(Change(s[i := b], b))
  }

  /** Give back one copy of the first book with id `id`. */
  function Return(s: seq<BookData>, id: string): (r: Result<Change>)
  {
    match FindIndex(s, id)
    case None => Err(InvalidReturn)
    case Some(i) =>
      if s[i].availableStock >= s[i].totalStock then Err(InvalidReturn)
      else
        var b := s[i].(availableStock := s[i].availableStock + 1);
        Ok(Change(s[i := b], b))
  }

  /** The search only looks at ids, so it finds the same position in two
      catalogs whose ids agree. */
  lemma {:induction false} FindIndexSameIds(s: seq<BookData>, t: seq<BookData>, id: string)
    requires |s| == |t|
    requires forall j :: 0 <= j < |s| ==> s[j].id == t[j].id
    ensures FindIndex(s, id) == FindIndex(t, id)
    decreases |s|
  {
    if s != [] && s[0].id != id {
      FindIndexSameIds(s[1..], t[1..], id);
    }
  }

  /** The search finds the first match, whichever it is. */
  lemma FindIndexFirst(s: seq<BookData>, id: string, i: nat)
    requires FirstMatch(s, id, i)
    ensures FindIndex(s, id) == Some(i)
  {
  }

  /** When ids are unique, a book is found exactly where it stands. */
  lemma {:induction false} DistinctIdsLookup(s: seq<BookData>, i: nat)
    requires DistinctIds(s) && i < |s|
    ensures FindIndex(s, s[i].id) == Some(i)
  {
    assert FirstMatch(s, s[i].id, i);
    FindIndexFirst(s, s[i].id, i);
  }

  /** Borrowing an id that no book has fails. */
  lemma BorrowUnknown(s: seq<BookData>, id: string)
    requires forall j :: 0 <= j < |s| ==> s[j].id != id
    ensures Borrow(s, id) == Err(BookNotAvailable)
  {
  }

  /** Borrowing the first book with the id succeeds exactly when it has a
      copy left; then that book alone loses one copy, and it is the book
      handed back. */
  lemma BorrowMatched(s: seq<BookData>, id: string, i: nat)
    requires FirstMatch(s, id, i)
    ensures Borrow(s, id).Ok? <==> s[i].availableStock > 0
    ensures Borrow(s, id).Err? ==> Borrow(s, id).error == BookNotAvailable
    ensures Borrow(s, id).Ok? ==>
      var c := Borrow(s, id).value;
      && OnlyStockAt(s, c.catalog, i)
      && c.catalog[i].availableStock == s[i].availableStock - 1
      && c.book == c.catalog[i]
  {
    FindIndexFirst(s, id, i);
  }

  /** Returning an id that no book has fails. */
  lemma ReturnUnknown(s: seq<BookData>, id: string)
    requires forall j :: 0 <= j < |s| ==> s[j].id != id
    ensures Return(s, id) == Err(InvalidReturn)
  {
  }

  /** Returning the first book with the id succeeds exactly when some copy
      is out; then that book alone gains one copy, and it is the book handed
      back. */
  lemma ReturnMatched(s: seq<BookData>, id: string, i: nat)
    requires FirstMatch(s, id, i)
    ensures Return(s, id).Ok? <==> s[i].availableStock < s[i].totalStock
    ensures Return(s, id).Err? ==> Return(s, id).error == InvalidReturn
    ensures Return(s, id).Ok? ==>
      var c := Return(s, id).value;
      && OnlyStockAt(s, c.catalog, i)
      && c.catalog[i].availableStock == s[i].availableStock + 1
      && c.book == c.catalog[i]
  {
    FindIndexFirst(s, id, i);
  }

  /** A borrow keeps every book within `0 <= available <= total`. */
  lemma BorrowKeepsStock(s: seq<BookData>, id: string)
    requires AllStockOk(s) && Borrow(s, id).Ok?
    ensures AllStockOk(Borrow(s, id).value.catalog)
  {
  }

  /** A return keeps every book within `0 <= available <= total`. */
  lemma ReturnKeepsStock(s: seq<BookData>, id: string)
    requires AllStockOk(s) && Return(s, id).Ok?
    ensures AllStockOk(Return(s, id).value.catalog)
  {
  }

  /** Returning a book just borrowed gives back the catalog as it was. */
  lemma BorrowThenReturn(s: seq<BookData>, id: string)
    requires AllStockOk(s) && Borrow(s, id).Ok?
    ensures Return(Borrow(s, id).value.catalog, id).Ok?
    ensures Return(Borrow(s, id).value.catalog, id).value.catalog == s
  {
    var t := Borrow(s, id).value.catalog;
    FindIndexSameIds(s, t, id);
  }

  /** Borrowing a book just returned gives back the catalog as it was. */
  lemma ReturnThenBorrow(s: seq<BookData>, id: string)
    requires AllStockOk(s) && Return(s, id).Ok?
    ensures Borrow(Return(s, id).value.catalog, id).Ok?
    ensures Borrow(Return(s, id).value.catalog, id).value.catalog == s
  {
    var t := Return(s, id).value.catalog;
    FindIndexSameIds(s, t, id);
  }
}
