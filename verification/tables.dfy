/** The four tables the controller reads and writes, their keys, and the
    per-row lookups its joins perform. */
module Tables {
  import opened Wrappers
  import opened MachineInts
  import opened Relational

  /** A bibliographic record; `isbn` is its natural key. */
  datatype Title = Title(isbn: string, title: string, author: string)

  /** One physical copy, keyed by `serial`, of the title with `isbn`. */
  datatype Inventory = Inventory(serial: uint32, isbn: string)

  /** A loan: the copy `serial` is out with the patron holding `cardNum`. */
  datatype CheckedOut = CheckedOut(cardNum: uint32, serial: uint32)

  /** A library member; the `Name` column is nullable. */
  datatype Patron = Patron(cardNum: uint32, name: Option<string>)

  /** The database: one sequence of rows per table. */
  datatype Db = Db(
    titles: seq<Title>,
    inventory: seq<Inventory>,
    checkedOut: seq<CheckedOut>,
    patrons: seq<Patron>)

  function TitleIsbn(t: Title): string { t.isbn }
  function CopySerial(i: Inventory): uint32 { i.serial }
  function LoanSerial(c: CheckedOut): uint32 { c.serial }
  function PatronCard(p: Patron): uint32 { p.cardNum }

  /** The key constraints of the schema: one title per ISBN, one copy per
      serial, at most one loan per copy, one patron per card. The store is
      assumed to enforce them; the controller itself never checks them. */
  ghost predicate KeysUnique(db: Db) {
    && KeyedBy(db.titles, TitleIsbn)
    && KeyedBy(db.inventory, CopySerial)
    && KeyedBy(db.checkedOut, LoanSerial)
    && KeyedBy(db.patrons, PatronCard)
  }

  /** The copies of the title `isbn` (the join Title -> Inventory). */
  function CopiesOf(db: Db, isbn: string): (r: seq<Inventory>)
    ensures forall i :: i in r <==> i in db.inventory && i.isbn == isbn
    ensures forall i :: multiset(r)[i] == if i.isbn == isbn then multiset(db.inventory)[i] else 0
  {
    Filter(db.inventory, (i: Inventory) => i.isbn == isbn)
  }

  /** The loans of a copy (the join Inventory -> CheckedOut). A missing
      copy has no serial, and a NULL key matches nothing in SQL. */
  function LoansOf(db: Db, copy: Option<Inventory>): (r: seq<CheckedOut>)
    ensures copy.None? ==> r == []
    ensures copy.Some? ==> forall c :: c in r <==> c in db.checkedOut && c.serial == copy.value.serial
    ensures forall c :: multiset(r)[c] <= multiset(db.checkedOut)[c]
  {
    match copy
    case None => []
    case Some(i) => Filter(db.checkedOut, (c: CheckedOut) => c.serial == i.serial)
  }

  /** The patrons holding a loan (the join CheckedOut -> Patrons). */
  function HoldersOf(db: Db, loan: Option<CheckedOut>): (r: seq<Patron>)
    ensures loan.None? ==> r == []
    ensures loan.Some? ==> forall p :: p in r <==> p in db.patrons && p.cardNum == loan.value.cardNum
    ensures forall p :: multiset(r)[p] <= multiset(db.patrons)[p]
  {
    match loan
    case None => []
    case Some(c) => Filter(db.patrons, (p: Patron) => p.cardNum == c.cardNum)
  }

  /** True when no copy of `t` is in the inventory. */
  ghost predicate NoCopy(db: Db, t: Title) {
    forall i :: i in db.inventory ==> i.isbn != t.isbn
  }

  /** The name shown for a copy as two plain lookups: the first loan of
      the copy, then the first patron with that loan's card; "" when
      either lookup finds nothing or the patron's name is NULL. */
  function BorrowerName(db: Db, copy: Inventory): string {
    var loans := LoansOf(db, Some(copy));
    if |loans| == 0 then ""
    else
      var holders := HoldersOf(db, Some(loans[0]));
      if |holders| == 0 then "" else holders[0].name.GetOr("")
  }

  /** The copy `serial` is lent to a patron whose stored name is `name`. */
  ghost predicate HeldBy(db: Db, serial: uint32, name: string) {
    exists c, p :: c in db.checkedOut && p in db.patrons && c.serial == serial
      && p.cardNum == c.cardNum && p.name == Some(name)
  }

  /** A non-empty borrower name is the stored name of a patron holding a
      loan of the copy; a copy with no loan shows "". */
  lemma BorrowerNameIsHolder(db: Db, copy: Inventory)
    ensures BorrowerName(db, copy) != "" ==> HeldBy(db, copy.serial, BorrowerName(db, copy))
    ensures (forall c :: c in db.checkedOut ==> c.serial != copy.serial) ==> BorrowerName(db, copy) == ""
  {
    var loans := LoansOf(db, Some(copy));
    if |loans| > 0 {
      assert loans[0] in loans;
      var holders := HoldersOf(db, Some(loans[0]));
      if |holders| > 0 {
        assert holders[0] in holders;
      }
    }
  }

  /** With loans keyed by serial and patrons by card, a lent copy shows
      the stored name of the patron holding it ("" when that name is NULL). */
  lemma HolderIsBorrowerName(db: Db, copy: Inventory, c: CheckedOut, p: Patron)
    requires KeyedBy(db.checkedOut, LoanSerial) && KeyedBy(db.patrons, PatronCard)
    requires c in db.checkedOut && c.serial == copy.serial
    requires p in db.patrons && p.cardNum == c.cardNum
    ensures BorrowerName(db, copy) == p.name.GetOr("")
  {
    var loans := LoansOf(db, Some(copy));
    assert c in loans;
    assert loans[0] in loans;
    KeyedSame(db.checkedOut, LoanSerial, loans[0], c);
    var holders := HoldersOf(db, Some(c));
    assert p in holders;
    assert holders[0] in holders;
    KeyedSame(db.patrons, PatronCard, holders[0], p);
  }
}
