/** The catalog the application starts with. */
module MockData {
  import opened Types
  import opened Inventory

  /** The four seeded books, each with every copy on the shelf. */
  function InitialBooks(): (s: seq<BookData>)
    ensures |s| == 4
    ensures s[0].id == "1" && s[1].id == "2" && s[2].id == "3" && s[3].id == "4"
    ensures DistinctIds(s)
    ensures forall i :: 0 <= i < |s| ==> 0 < s[i].totalStock == s[i].availableStock
    ensures AllStockOk(s)
  {
    [ BookData("1", "Clean Code", "Robert C. Martin", 3, 3),
      BookData("2", "The Pragmatic Programmer", "Andrew Hunt & David Thomas", 2, 2),
      BookData("3", "You Don't Know JS", "Kyle Simpson", 4, 4),
      BookData("4", "Design Patterns", "Gang of Four", 2, 2) ]
  }
}
