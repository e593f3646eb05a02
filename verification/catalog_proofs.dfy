/** What `AllTitles` promises: every title is listed, a title without a
    copy yields one row with a NULL serial and an empty name, and a
    copy's row names its borrower. Under the schema's keys the three-stage
    left join yields exactly one row per (title, copy). */
module CatalogProofs {
  import opened Wrappers
  import opened MachineInts
  import opened Relational
  import opened Tables
  import opened HomeController

  /** The row for a title without copies. */
  function NoCopyRow(t: Title): CatalogRow {
    CatalogRow(t.isbn, t.title, t.author, None, "")
  }

  /** The row for copy `i` of title `t`, showing `name`. */
  function CopyRow(t: Title, i: Inventory, name: string): CatalogRow {
    CatalogRow(t.isbn, t.title, t.author, Some(i.serial), name)
  }

  /** The reference row for a title and an optional copy, computed with
      plain lookups instead of joins. */
  function CatalogEntry(db: Db, t: Title, copy: Option<Inventory>): CatalogRow {
    match copy
    case None => NoCopyRow(t)
    case Some(i) => CopyRow(t, i, BorrowerName(db, i))
  }

  /** What any row produced for title `t` must look like: the title's own
      columns; a NULL serial and "" only when no copy exists; otherwise a
      copy's serial, and a name that is "" or a holder's stored name. */
  ghost predicate RowFits(db: Db, t: Title, r: CatalogRow) {
    && r.isbn == t.isbn && r.title == t.title && r.author == t.author
    && (r.serial.None? ==> NoCopy(db, t) && r.name == "")
    && (r.serial.Some? ==>
          exists i :: i in db.inventory && i.isbn == t.isbn && i.serial == r.serial.value
            && (r.name == "" || HeldBy(db, i.serial, r.name)))
  }

  /** The patron (or NULL) the third left join used for row `r`. */
  lemma HolderOfRow(db: Db, t: Title, copy: Option<Inventory>, loan: Option<CheckedOut>, r: CatalogRow)
    returns (holder: Option<Patron>)
    requires r in RowsOfLoan(db, t, copy, loan)
    ensures holder in DefaultIfEmpty(HoldersOf(db, loan))
    ensures r == CatalogRowOf(t, copy, holder)
  {
    holder := FlatMapSource(DefaultIfEmpty(HoldersOf(db, loan)), HolderExpansion(t, copy), r);
  }

  /** The loan (or NULL) the second left join used for row `r`. */
  lemma LoanOfRow(db: Db, t: Title, copy: Option<Inventory>, r: CatalogRow)
    returns (loan: Option<CheckedOut>)
    requires r in RowsOfCopy(db, t, copy)
    ensures loan in DefaultIfEmpty(LoansOf(db, copy))
    ensures r in RowsOfLoan(db, t, copy, loan)
  {
    loan := FlatMapSource(DefaultIfEmpty(LoansOf(db, copy)), LoanExpansion(db, t, copy), r);
  }

  /** The copy (or NULL) the first left join used for row `r`. */
  lemma CopyOfRow(db: Db, t: Title, r: CatalogRow)
    returns (copy: Option<Inventory>)
    requires r in RowsOfTitle(db, t)
    ensures copy in DefaultIfEmpty(CopiesOf(db, t.isbn))
    ensures r in RowsOfCopy(db, t, copy)
  {
    copy := FlatMapSource(DefaultIfEmpty(CopiesOf(db, t.isbn)), CopyExpansion(db, t), r);
  }

  /** A title none of whose copies the first join found has no copy. */
  lemma NoCopiesMeansNoCopy(db: Db, t: Title)
    requires |CopiesOf(db, t.isbn)| == 0
    ensures NoCopy(db, t)
  {
  }

  /** The single row of a title the first join found no copy for. */
  lemma RowsOfMissingCopySound(db: Db, t: Title, r: CatalogRow)
    requires None in DefaultIfEmpty(CopiesOf(db, t.isbn))
    requires r in RowsOfCopy(db, t, None)
    ensures r == NoCopyRow(t) && NoCopy(db, t)
  {
    var loan := LoanOfRow(db, t, None, r);
    var holder := HolderOfRow(db, t, None, loan, r);
    NoCopiesMeansNoCopy(db, t);
    assert loan == None;
    assert holder == None;
  }

  /** A row of copy `i` shows its serial, and "" or a holder's name. */
  lemma RowsOfPresentCopySound(db: Db, t: Title, i: Inventory, r: CatalogRow)
    requires r in RowsOfCopy(db, t, Some(i))
    ensures r.isbn == t.isbn && r.title == t.title && r.author == t.author
    ensures r.serial == Some(i.serial)
    ensures r.name == "" || HeldBy(db, i.serial, r.name)
  {
    var loan := LoanOfRow(db, t, Some(i), r);
    var holder := HolderOfRow(db, t, Some(i), loan, r);
    if r.name != "" {
      var p := holder.value;
      assert p in HoldersOf(db, loan);
      var c := loan.value;
      assert c in LoansOf(db, Some(i));
      assert p.name == Some(r.name);
    }
  }

  /** Every row of one copy fits the title, given the copy came from it. */
  lemma RowsOfCopySound(db: Db, t: Title, copy: Option<Inventory>, r: CatalogRow)
    requires copy in DefaultIfEmpty(CopiesOf(db, t.isbn))
    requires r in RowsOfCopy(db, t, copy)
    ensures RowFits(db, t, r)
  {
    match copy
    case None =>
      RowsOfMissingCopySound(db, t, r);
    case Some(i) =>
      RowsOfPresentCopySound(db, t, i, r);
      assert i in CopiesOf(db, t.isbn);
  }

  /** Every row the pipeline builds for title `t` fits `t`. */
  lemma RowsOfTitleSound(db: Db, t: Title, r: CatalogRow)
    requires r in RowsOfTitle(db, t)
    ensures RowFits(db, t, r)
  {
    var copy := CopyOfRow(db, t, r);
    RowsOfCopySound(db, t, copy, r);
  }

  /** Every row of `AllTitles` comes from a title it fits. */
  lemma CatalogRowsSound(db: Db, s: Session, r: CatalogRow)
    requires r in AllTitles(db, s).result.value
    ensures exists t :: t in db.titles && RowFits(db, t, r)
  {
    var t := FlatMapSource(db.titles, TitleExpansion(db), r);
    RowsOfTitleSound(db, t, r);
  }

  // ------------------------------------------------------ completeness

  /** A title without copies is listed with a NULL serial and name "". */
  lemma NoCopyTitleListed(db: Db, s: Session, t: Title)
    requires t in db.titles && NoCopy(db, t)
    ensures NoCopyRow(t) in AllTitles(db, s).result.value
  {
    var y := NoCopyRow(t);
    assert |CopiesOf(db, t.isbn)| == 0;
    FlatMapIncludes(DefaultIfEmpty(HoldersOf(db, None)), HolderExpansion(t, None), None, y);
    FlatMapIncludes(DefaultIfEmpty(LoansOf(db, None)), LoanExpansion(db, t, None), None, y);
    FlatMapIncludes(DefaultIfEmpty(CopiesOf(db, t.isbn)), CopyExpansion(db, t), None, y);
    FlatMapIncludes(db.titles, TitleExpansion(db), t, y);
  }

  /** Every copy of a listed title has a row showing its serial; a copy
      that is not on loan shows the name "". */
  lemma CopyListed(db: Db, s: Session, t: Title, i: Inventory)
    requires t in db.titles && i in db.inventory && i.isbn == t.isbn
    ensures exists name :: CopyRow(t, i, name) in AllTitles(db, s).result.value
    ensures (forall c :: c in db.checkedOut ==> c.serial != i.serial) ==>
      CopyRow(t, i, "") in AllTitles(db, s).result.value
  {
    var loans := DefaultIfEmpty(LoansOf(db, Some(i)));
    var loan := loans[0];
    var holders := DefaultIfEmpty(HoldersOf(db, loan));
    var holder := holders[0];
    var r := CatalogRowOf(t, Some(i), holder);
    FlatMapIncludes(holders, HolderExpansion(t, Some(i)), holder, r);
    FlatMapIncludes(loans, LoanExpansion(db, t, Some(i)), loan, r);
    assert Some(i) in DefaultIfEmpty(CopiesOf(db, t.isbn));
    FlatMapIncludes(DefaultIfEmpty(CopiesOf(db, t.isbn)), CopyExpansion(db, t), Some(i), r);
    FlatMapIncludes(db.titles, TitleExpansion(db), t, r);
    assert r == CopyRow(t, i, r.name);
    if forall c :: c in db.checkedOut ==> c.serial != i.serial {
      assert |LoansOf(db, Some(i))| == 0;
      assert loan == None;
      assert holder == None;
    }
  }

  /** Every title appears in at least one row carrying its own columns. */
  lemma EveryTitleListed(db: Db, s: Session, t: Title)
    requires t in db.titles
    ensures exists r :: r in AllTitles(db, s).result.value
                    && r.isbn == t.isbn && r.title == t.title && r.author == t.author
  {
    if NoCopy(db, t) {
      NoCopyTitleListed(db, s, t);
    } else {
      var i :| i in db.inventory && i.isbn == t.isbn;
      CopyListed(db, s, t, i);
    }
  }

  // ------------------------------------------------- exactness under keys

  /** With loans keyed by serial and patrons by card, the second and third
      left joins never fan out: each copy yields exactly its reference row. */
  lemma RowsOfCopyUnderKeys(db: Db, t: Title, copy: Option<Inventory>)
    requires KeyedBy(db.checkedOut, LoanSerial) && KeyedBy(db.patrons, PatronCard)
    ensures RowsOfCopy(db, t, copy) == [CatalogEntry(db, t, copy)]
  {
    var loans := LoansOf(db, copy);
    KeyedSub(db.checkedOut, loans, LoanSerial);
    if copy.Some? {
      AtMostOneWithKey(loans, LoanSerial, copy.value.serial);
    }
    DefaultIfEmptyOfAtMostOne(loans);
    var loan := if |loans| == 0 then None else Some(loans[0]);
    FlatMapSingle(loan, LoanExpansion(db, t, copy));
    var holders := HoldersOf(db, loan);
    KeyedSub(db.patrons, holders, PatronCard);
    if loan.Some? {
      AtMostOneWithKey(holders, PatronCard, loan.value.cardNum);
    }
    DefaultIfEmptyOfAtMostOne(holders);
    var holder := if |holders| == 0 then None else Some(holders[0]);
    FlatMapSingle(holder, HolderExpansion(t, copy));
    assert RowsOfCopy(db, t, copy) == [CatalogRowOf(t, copy, holder)];
  }

  /** Under the keys, the title and copy (or NULL) behind a catalog row. */
  lemma OriginUnderKeys(db: Db, r: CatalogRow) returns (t: Title, copy: Option<Inventory>)
    requires KeysUnique(db)
    requires r in CatalogRows(db)
    ensures t in db.titles && copy in DefaultIfEmpty(CopiesOf(db, t.isbn))
    ensures r == CatalogEntry(db, t, copy)
  {
    t := FlatMapSource(db.titles, TitleExpansion(db), r);
    copy := CopyOfRow(db, t, r);
    RowsOfCopyUnderKeys(db, t, copy);
  }

  /** The row of a title without copies, or the reference row of a copy. */
  ghost predicate CatalogShape(db: Db, r: CatalogRow) {
    || (exists t :: t in db.titles && NoCopy(db, t) && r == NoCopyRow(t))
    || (exists t, i :: t in db.titles && i in db.inventory && i.isbn == t.isbn
          && r == CopyRow(t, i, BorrowerName(db, i)))
  }

  /** Under the keys, `AllTitles` lists exactly the titles without copies
      (NULL serial, name "") and every (title, copy) pair with the name of
      the copy's borrower as found by plain lookups. */
  lemma CatalogUnderKeys(db: Db, s: Session, r: CatalogRow)
    requires KeysUnique(db)
    ensures r in AllTitles(db, s).result.value <==>
      || (exists t :: t in db.titles && NoCopy(db, t) && r == NoCopyRow(t))
      || (exists t, i :: t in db.titles && i in db.inventory && i.isbn == t.isbn
            && r == CopyRow(t, i, BorrowerName(db, i)))
  {
    if r in CatalogRows(db) {
      CatalogRowShape(db, r);
    }
    if CatalogShape(db, r) {
      CatalogShapeListed(db, r);
    }
  }

  lemma CatalogRowShape(db: Db, r: CatalogRow)
    requires KeysUnique(db) && r in CatalogRows(db)
    ensures CatalogShape(db, r)
  {
    var t, copy := OriginUnderKeys(db, r);
    if copy.None? {
      NoCopiesMeansNoCopy(db, t);
    } else {
      assert copy.value in CopiesOf(db, t.isbn);
    }
  }

  lemma CatalogShapeListed(db: Db, r: CatalogRow)
    requires KeysUnique(db) && CatalogShape(db, r)
    ensures r in CatalogRows(db)
  {
    if exists t :: t in db.titles && NoCopy(db, t) && r == NoCopyRow(t) {
      var t :| t in db.titles && NoCopy(db, t) && r == NoCopyRow(t);
      NoCopyTitleListed(db, LoggedOut, t);
    } else {
      var t, i :| t in db.titles && i in db.inventory && i.isbn == t.isbn
        && r == CopyRow(t, i, BorrowerName(db, i));
      CopyRowListed(db, t, i);
    }
  }

  /** A copy's reference row is produced by the join. */
  lemma CopyRowListed(db: Db, t: Title, i: Inventory)
    requires KeysUnique(db)
    requires t in db.titles && i in db.inventory && i.isbn == t.isbn
    ensures CatalogEntry(db, t, Some(i)) in CatalogRows(db)
  {
    var y := CatalogEntry(db, t, Some(i));
    RowsOfCopyUnderKeys(db, t, Some(i));
    assert Some(i) in DefaultIfEmpty(CopiesOf(db, t.isbn));
    FlatMapIncludes(DefaultIfEmpty(CopiesOf(db, t.isbn)), CopyExpansion(db, t), Some(i), y);
    FlatMapIncludes(db.titles, TitleExpansion(db), t, y);
  }

  /** Only title `t` can produce a row carrying `t`'s ISBN, when ISBNs are keys. */
  lemma OnlyTitleWithIsbn(db: Db, t: Title, y: CatalogRow)
    requires KeyedBy(db.titles, TitleIsbn) && t in db.titles && y.isbn == t.isbn
    ensures forall x :: x in db.titles && y in TitleExpansion(db)(x) ==> x == t
  {
    forall x | x in db.titles && y in TitleExpansion(db)(x)
      ensures x == t
    {
      RowsOfTitleSound(db, x, y);
      assert TitleIsbn(x) == TitleIsbn(t);
      KeyedSame(db.titles, TitleIsbn, x, t);
    }
  }

  /** Under the keys, only copy `i` yields a row carrying `i`'s serial. */
  lemma OnlyCopyWithSerial(db: Db, t: Title, i: Inventory, y: CatalogRow)
    requires KeysUnique(db) && i in db.inventory && y.serial == Some(i.serial)
    ensures forall o :: o in DefaultIfEmpty(CopiesOf(db, t.isbn)) && y in CopyExpansion(db, t)(o) ==> o == Some(i)
  {
    forall o | o in DefaultIfEmpty(CopiesOf(db, t.isbn)) && y in CopyExpansion(db, t)(o)
      ensures o == Some(i)
    {
      RowsOfCopyUnderKeys(db, t, o);
      assert y == CatalogEntry(db, t, o);
      var j := o.value;
      assert j in CopiesOf(db, t.isbn);
      assert CopySerial(j) == CopySerial(i);
      KeyedSame(db.inventory, CopySerial, j, i);
    }
  }

  /** Under the keys, copy `i` of title `t` yields one row within the title. */
  lemma CopyRowOnceInTitle(db: Db, t: Title, i: Inventory)
    requires KeysUnique(db)
    requires i in db.inventory && i.isbn == t.isbn
    ensures multiset(RowsOfTitle(db, t))[CatalogEntry(db, t, Some(i))] == 1
  {
    var y := CatalogEntry(db, t, Some(i));
    var copies := DefaultIfEmpty(CopiesOf(db, t.isbn));
    assert multiset(copies)[Some(i)] == 1 by {
      KeyedCountOne(db.inventory, CopySerial, i);
      assert multiset(CopiesOf(db, t.isbn))[i] == 1;
    }
    assert multiset(CopyExpansion(db, t)(Some(i)))[y] == 1 by {
      RowsOfCopyUnderKeys(db, t, Some(i));
    }
    OnlyCopyWithSerial(db, t, i, y);
    FlatMapCountOnce(copies, CopyExpansion(db, t), Some(i), y);
  }

  /** Under the keys, each copy of each title appears in exactly one row,
      and that row shows the copy's borrower. */
  lemma CopyRowExactlyOnce(db: Db, s: Session, t: Title, i: Inventory)
    requires KeysUnique(db)
    requires t in db.titles && i in db.inventory && i.isbn == t.isbn
    ensures multiset(AllTitles(db, s).result.value)[CopyRow(t, i, BorrowerName(db, i))] == 1
    ensures forall r :: r in AllTitles(db, s).result.value && r.serial == Some(i.serial) ==>
      r == CopyRow(t, i, BorrowerName(db, i))
  {
    var y := CatalogEntry(db, t, Some(i));
    assert multiset(CatalogRows(db))[y] == 1 by {
      CopyRowOnceInTitle(db, t, i);
      OnlyTitleWithIsbn(db, t, y);
      KeyedCountOne(db.titles, TitleIsbn, t);
      FlatMapCountOnce(db.titles, TitleExpansion(db), t, y);
    }
    forall r | r in CatalogRows(db) && r.serial == Some(i.serial)
      ensures r == y
    {
      SerialRowUnderKeys(db, t, i, r);
    }
  }

  /** Under the keys, a lent copy is listed with its holder's stored name
      ("" when that name is NULL), and every row showing its serial is
      that row. */
  lemma LentCopyListedWithHolder(db: Db, s: Session, t: Title, i: Inventory, c: CheckedOut, p: Patron)
    requires KeysUnique(db)
    requires t in db.titles && i in db.inventory && i.isbn == t.isbn
    requires c in db.checkedOut && c.serial == i.serial
    requires p in db.patrons && p.cardNum == c.cardNum
    ensures CopyRow(t, i, p.name.GetOr("")) in AllTitles(db, s).result.value
    ensures forall r :: r in AllTitles(db, s).result.value && r.serial == Some(i.serial) ==>
      r.name == p.name.GetOr("")
  {
    HolderIsBorrowerName(db, i, c, p);
    CopyRowListed(db, t, i);
    forall r | r in CatalogRows(db) && r.serial == Some(i.serial)
      ensures r.name == p.name.GetOr("")
    {
      SerialRowUnderKeys(db, t, i, r);
    }
  }

  /** Under the keys, a row showing copy `i`'s serial is `i`'s reference row. */
  lemma SerialRowUnderKeys(db: Db, t: Title, i: Inventory, r: CatalogRow)
    requires KeysUnique(db)
    requires t in db.titles && i in db.inventory && i.isbn == t.isbn
    requires r in CatalogRows(db) && r.serial == Some(i.serial)
    ensures r == CatalogEntry(db, t, Some(i))
  {
    var x, copy := OriginUnderKeys(db, r);
    var j := copy.value;
    assert j in CopiesOf(db, x.isbn);
    assert CopySerial(j) == CopySerial(i);
    KeyedSame(db.inventory, CopySerial, j, i);
    assert TitleIsbn(x) == TitleIsbn(t);
    KeyedSame(db.titles, TitleIsbn, x, t);
  }

  /** Under the keys, a title without copies appears in exactly one row,
      and no other row carries its ISBN. */
  lemma NoCopyRowExactlyOnce(db: Db, s: Session, t: Title)
    requires KeysUnique(db)
    requires t in db.titles && NoCopy(db, t)
    ensures multiset(AllTitles(db, s).result.value)[NoCopyRow(t)] == 1
    ensures forall r :: r in AllTitles(db, s).result.value && r.isbn == t.isbn ==> r == NoCopyRow(t)
  {
    var y := NoCopyRow(t);
    assert multiset(CatalogRows(db))[y] == 1 by {
      assert |CopiesOf(db, t.isbn)| == 0;
      FlatMapSingle(None, CopyExpansion(db, t));
      RowsOfCopyUnderKeys(db, t, None);
      assert RowsOfTitle(db, t) == [y];
      OnlyTitleWithIsbn(db, t, y);
      KeyedCountOne(db.titles, TitleIsbn, t);
      FlatMapCountOnce(db.titles, TitleExpansion(db), t, y);
    }
    forall r | r in CatalogRows(db) && r.isbn == t.isbn
      ensures r == y
    {
      IsbnRowOfNoCopyTitle(db, t, r);
    }
  }

  /** A row carrying the ISBN of a title without copies is its NULL row. */
  lemma IsbnRowOfNoCopyTitle(db: Db, t: Title, r: CatalogRow)
    requires KeyedBy(db.titles, TitleIsbn)
    requires t in db.titles && NoCopy(db, t)
    requires r in CatalogRows(db) && r.isbn == t.isbn
    ensures r == NoCopyRow(t)
  {
    var x := FlatMapSource(db.titles, TitleExpansion(db), r);
    RowsOfTitleSound(db, x, r);
    assert TitleIsbn(x) == TitleIsbn(t);
    KeyedSame(db.titles, TitleIsbn, x, t);
  }
}
