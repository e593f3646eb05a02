/** The three-title catalog used to illustrate `AllTitles`: a title the
    library does not own, an owned copy on the shelf, and an owned copy
    lent to a patron. */
module CatalogExample {
  import opened Wrappers
  import opened Relational
  import opened Tables
  import opened HomeController

  function ExampleDb(): Db {
    Db([Title("1", "T1", "A1"), Title("2", "T2", "A2"), Title("3", "T3", "A3")],
       [Inventory(100, "2"), Inventory(200, "3")],
       [CheckedOut(7, 200)],
       [Patron(7, Some("Alice"))])
  }

  /** A title with one copy, one loan of it and one holder of the loan
      yields the one row naming that holder. */
  lemma LentChainRows(db: Db, t: Title, i: Inventory, c: CheckedOut, p: Patron)
    requires CopiesOf(db, t.isbn) == [i]
    requires LoansOf(db, Some(i)) == [c]
    requires HoldersOf(db, Some(c)) == [p]
    ensures RowsOfTitle(db, t) == [CatalogRowOf(t, Some(i), Some(p))]
  {
    var r := CatalogRowOf(t, Some(i), Some(p));
    DefaultIfEmptyOfAtMostOne([p]);
    FlatMapSingle(Some(p), HolderExpansion(t, Some(i)));
    assert RowsOfLoan(db, t, Some(i), Some(c)) == [r];
    DefaultIfEmptyOfAtMostOne([c]);
    FlatMapSingle(Some(c), LoanExpansion(db, t, Some(i)));
    assert RowsOfCopy(db, t, Some(i)) == [r];
    DefaultIfEmptyOfAtMostOne([i]);
    FlatMapSingle(Some(i), CopyExpansion(db, t));
  }

  /** A title with one copy that has no loan yields one row with name "". */
  lemma ShelvedChainRows(db: Db, t: Title, i: Inventory)
    requires CopiesOf(db, t.isbn) == [i]
    requires LoansOf(db, Some(i)) == []
    ensures RowsOfTitle(db, t) == [CatalogRowOf(t, Some(i), None)]
  {
    var r := CatalogRowOf(t, Some(i), None);
    FlatMapSingle(None, HolderExpansion(t, Some(i)));
    assert RowsOfLoan(db, t, Some(i), None) == [r];
    FlatMapSingle(None, LoanExpansion(db, t, Some(i)));
    assert RowsOfCopy(db, t, Some(i)) == [r];
    DefaultIfEmptyOfAtMostOne([i]);
    FlatMapSingle(Some(i), CopyExpansion(db, t));
  }

  /** A title without copies yields one row with no serial and name "". */
  lemma UnownedChainRows(db: Db, t: Title)
    requires CopiesOf(db, t.isbn) == []
    ensures RowsOfTitle(db, t) == [CatalogRowOf(t, None, None)]
  {
    var r := CatalogRowOf(t, None, None);
    FlatMapSingle(None, HolderExpansion(t, None));
    FlatMapSingle(None, LoanExpansion(db, t, None));
    FlatMapSingle(None, CopyExpansion(db, t));
  }

  lemma UnownedTitleRows()
    ensures RowsOfTitle(ExampleDb(), Title("1", "T1", "A1")) == [CatalogRow("1", "T1", "A1", None, "")]
  {
    assert CopiesOf(ExampleDb(), "1") == [];
    UnownedChainRows(ExampleDb(), Title("1", "T1", "A1"));
  }

  lemma ShelvedTitleRows()
    ensures RowsOfTitle(ExampleDb(), Title("2", "T2", "A2")) == [CatalogRow("2", "T2", "A2", Some(100), "")]
  {
    var db := ExampleDb();
    assert CopiesOf(db, "2") == [Inventory(100, "2")];
    assert LoansOf(db, Some(Inventory(100, "2"))) == [];
    ShelvedChainRows(db, Title("2", "T2", "A2"), Inventory(100, "2"));
  }

  lemma LentCopyLookups()
    ensures CopiesOf(ExampleDb(), "3") == [Inventory(200, "3")]
    ensures LoansOf(ExampleDb(), Some(Inventory(200, "3"))) == [CheckedOut(7, 200)]
  {
    var db := ExampleDb();
    assert CopiesOf(db, "3") == [Inventory(200, "3")];
    assert LoansOf(db, Some(Inventory(200, "3"))) == [CheckedOut(7, 200)];
  }

  lemma LentHolderLookup()
    ensures HoldersOf(ExampleDb(), Some(CheckedOut(7, 200))) == [Patron(7, Some("Alice"))]
  {
    assert ExampleDb().patrons == [Patron(7, Some("Alice"))];
  }

  lemma LentTitleRows()
    ensures RowsOfTitle(ExampleDb(), Title("3", "T3", "A3")) == [CatalogRow("3", "T3", "A3", Some(200), "Alice")]
  {
    LentCopyLookups();
    LentHolderLookup();
    LentChainRows(ExampleDb(), Title("3", "T3", "A3"), Inventory(200, "3"), CheckedOut(7, 200), Patron(7, Some("Alice")));
  }

  /** `FlatMap` over three inputs that each expand to one output. */
  lemma FlatMapThree<A, B>(a: A, b: A, c: A, f: A -> seq<B>, x: B, y: B, z: B)
    requires f(a) == [x] && f(b) == [y] && f(c) == [z]
    ensures FlatMap([a, b, c], f) == [x, y, z]
  {
    FlatMapSingle(c, f);
    assert [b, c][1..] == [c];
    assert [a, b, c][1..] == [b, c];
  }

  /** A three-title database whose titles each yield one row has exactly
      those rows as its catalog, in title order. */
  lemma CatalogOfThree(db: Db, t1: Title, t2: Title, t3: Title, r1: CatalogRow, r2: CatalogRow, r3: CatalogRow)
    requires db.titles == [t1, t2, t3]
    requires RowsOfTitle(db, t1) == [r1] && RowsOfTitle(db, t2) == [r2] && RowsOfTitle(db, t3) == [r3]
    ensures CatalogRows(db) == [r1, r2, r3]
  {
    FlatMapThree(t1, t2, t3, TitleExpansion(db), r1, r2, r3);
  }

  /** The catalog has exactly three rows: a NULL serial and "" for the
      unowned title, the shelved copy with "", the lent copy with its
      borrower's name. */
  lemma ExampleCatalog()
    ensures AllTitles(ExampleDb(), LoggedOut).result.value == [
      CatalogRow("1", "T1", "A1", None, ""),
      CatalogRow("2", "T2", "A2", Some(100), ""),
      CatalogRow("3", "T3", "A3", Some(200), "Alice")]
  {
    UnownedTitleRows();
    ShelvedTitleRows();
    LentTitleRows();
    CatalogOfThree(ExampleDb(), Title("1", "T1", "A1"), Title("2", "T2", "A2"), Title("3", "T3", "A3"),
      CatalogRow("1", "T1", "A1", None, ""),
      CatalogRow("2", "T2", "A2", Some(100), ""),
      CatalogRow("3", "T3", "A3", Some(200), "Alice"));
  }
}
