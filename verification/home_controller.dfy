/** The controller's actions as pure functions of (database, session,
    arguments) returning (result, database', session'). The two static
    fields `user` and `card` become the explicit `Session`. */
module HomeController {
  import opened Wrappers
  import opened MachineInts
  import opened Relational
  import opened Tables

  /** The process-wide login: a name and the card number as a C# `int`. */
  datatype Session = Session(user: string, card: int32)

  /** The logged-out sentinel the fields start with and are reset to. */
  const LoggedOut: Session := Session("", -1)

  /** What an action returns: its JSON payload or the exception it raised,
      with the database and the session as the action leaves them. */
  datatype Reply<T> = Reply(result: Result<T, Fault>, db: Db, session: Session)

  /** One element of the `AllTitles` array; `serial` is the nullable `uint?`. */
  datatype CatalogRow = CatalogRow(isbn: string, title: string, author: string, serial: Option<uint32>, name: string)

  /** One element of the `ListMyBooks` array; `serial` is never null. */
  datatype MyBookRow = MyBookRow(title: string, author: string, serial: uint32)

  // ---------------------------------------------------------------- login

  /** `CheckLogin`: succeeds exactly when a patron row carries both the
      name and the card number, and only then records them as the session.
      Converting a negative card number raises before any row is read. */
  function CheckLogin(db: Db, s: Session, name: string, cardnum: int32): (r: Reply<bool>)
    ensures r.db == db
    ensures r.result.Failure? <==> cardnum < 0
    ensures r.result.Failure? ==> r.session == s
    ensures r.result == Success(true) <==>
      exists p :: p in db.patrons && p.name == Some(name) && p.cardNum == cardnum
    ensures r.result == Success(true) ==> r.session == Session(name, cardnum)
    ensures r.result == Success(false) ==> r.session == s
  {
    match ToUInt32(cardnum)
    case Failure(e) => Reply(Failure(e), db, s)
    case Success(c) =>
      var found := Filter(db.patrons, (p: Patron) => p.name == Some(name) && p.cardNum == c);
      if |found| > 0 then
        assert found[0] in found;
        Reply(Success(true), db, Session(name, cardnum))
      else
        Reply(Success(false), db, s)
  }

  /** `LogOut`: resets the session to the sentinel and reports success. */
  function LogOut(db: Db, s: Session): (r: Reply<bool>)
    ensures r.db == db
  {
    Reply(Success(true), db, LoggedOut)
  }

  /** The session reset done by the `Login` page action; the page itself
      is not modelled, so the payload is empty. */
  function Login(db: Db, s: Session): (r: Reply<()>)
    ensures r.db == db
  {
    Reply(Success(()), db, LoggedOut)
  }

  // ------------------------------------------------------------ AllTitles

  /** The output row for title `t`, the copy matched by the first left
      join (if any) and the patron matched by the third (if any). */
  function CatalogRowOf(t: Title, copy: Option<Inventory>, holder: Option<Patron>): CatalogRow {
    CatalogRow(
      t.isbn, t.title, t.author,
      if copy.Some? then Some(copy.value.serial) else None,
      if holder.None? then "" else holder.value.name.GetOr(""))
  }

  /** Third left join: CheckedOut -> Patrons, one row per matched patron
      or one row with no patron. */
  function RowsOfLoan(db: Db, t: Title, copy: Option<Inventory>, loan: Option<CheckedOut>): seq<CatalogRow> {
    FlatMap(DefaultIfEmpty(HoldersOf(db, loan)), HolderExpansion(t, copy))
  }

  function HolderExpansion(t: Title, copy: Option<Inventory>): Option<Patron> -> seq<CatalogRow> {
    (holder: Option<Patron>) => [CatalogRowOf(t, copy, holder)]
  }

  function LoanExpansion(db: Db, t: Title, copy: Option<Inventory>): Option<CheckedOut> -> seq<CatalogRow> {
    (loan: Option<CheckedOut>) => RowsOfLoan(db, t, copy, loan)
  }

  /** Second left join: Inventory -> CheckedOut. */
  function RowsOfCopy(db: Db, t: Title, copy: Option<Inventory>): seq<CatalogRow> {
    FlatMap(DefaultIfEmpty(LoansOf(db, copy)), LoanExpansion(db, t, copy))
  }

  function CopyExpansion(db: Db, t: Title): Option<Inventory> -> seq<CatalogRow> {
    (copy: Option<Inventory>) => RowsOfCopy(db, t, copy)
  }

  /** First left join: Titles -> Inventory. */
  function RowsOfTitle(db: Db, t: Title): seq<CatalogRow> {
    FlatMap(DefaultIfEmpty(CopiesOf(db, t.isbn)), CopyExpansion(db, t))
  }

  function TitleExpansion(db: Db): Title -> seq<CatalogRow> {
    (t: Title) => RowsOfTitle(db, t)
  }

  /** The whole left-join pipeline Titles -> Inventory -> CheckedOut -> Patrons. */
  function CatalogRows(db: Db): seq<CatalogRow> {
    FlatMap(db.titles, TitleExpansion(db))
  }

  /** `AllTitles`: the catalog, read-only, whatever the session. */
  function AllTitles(db: Db, s: Session): (r: Reply<seq<CatalogRow>>)
    ensures r.db == db && r.session == s
    ensures r.result.Success?
  {
    Reply(Success(CatalogRows(db)), db, s)
  }

  // ---------------------------------------------------------- ListMyBooks

  /** The `where` and `select` of `ListMyBooks` for one joined loan. */
  function MyLoanExpansion(card: uint32, t: Title, i: Inventory): CheckedOut -> seq<MyBookRow> {
    (c: CheckedOut) => if c.cardNum == card then [MyBookRow(t.title, t.author, i.serial)] else []
  }

  /** Inner join Inventory -> CheckedOut for one copy. */
  function MyRowsOfCopy(db: Db, card: uint32, t: Title, i: Inventory): seq<MyBookRow> {
    FlatMap(LoansOf(db, Some(i)), MyLoanExpansion(card, t, i))
  }

  function MyCopyExpansion(db: Db, card: uint32, t: Title): Inventory -> seq<MyBookRow> {
    (i: Inventory) => MyRowsOfCopy(db, card, t, i)
  }

  /** Inner join Titles -> Inventory for one title. */
  function MyRowsOfTitle(db: Db, card: uint32, t: Title): seq<MyBookRow> {
    FlatMap(CopiesOf(db, t.isbn), MyCopyExpansion(db, card, t))
  }

  function MyTitleExpansion(db: Db, card: uint32): Title -> seq<MyBookRow> {
    (t: Title) => MyRowsOfTitle(db, card, t)
  }

  /** The inner-join pipeline Titles -> Inventory -> CheckedOut filtered
      on the card number. */
  function MyBookRows(db: Db, card: uint32): seq<MyBookRow> {
    FlatMap(db.titles, MyTitleExpansion(db, card))
  }

  /** A loan to `card` of a copy of a title, seen as a `ListMyBooks` row. */
  ghost predicate LoanedRow(db: Db, card: int, b: MyBookRow) {
    exists t, i, c :: t in db.titles && i in db.inventory && c in db.checkedOut
      && i.isbn == t.isbn && c.serial == i.serial && c.cardNum == card
      && b == MyBookRow(t.title, t.author, i.serial)
  }

  /** A row is in the inner join exactly when it comes from a loan. */
  lemma MyBookRowsMembership(db: Db, card: uint32, b: MyBookRow)
    ensures b in MyBookRows(db, card) <==> LoanedRow(db, card, b)
  {
    if b in MyBookRows(db, card) {
      MyBookRowsSound(db, card, b);
    }
    if LoanedRow(db, card, b) {
      var t, i, c :| t in db.titles && i in db.inventory && c in db.checkedOut
        && i.isbn == t.isbn && c.serial == i.serial && c.cardNum == card
        && b == MyBookRow(t.title, t.author, i.serial);
      MyBookRowsComplete(db, card, t, i, c);
    }
  }

  lemma MyBookRowsSound(db: Db, card: uint32, b: MyBookRow)
    requires b in MyBookRows(db, card)
    ensures LoanedRow(db, card, b)
  {
    var t := FlatMapSource(db.titles, MyTitleExpansion(db, card), b);
    var i := FlatMapSource(CopiesOf(db, t.isbn), MyCopyExpansion(db, card, t), b);
    var c := FlatMapSource(LoansOf(db, Some(i)), MyLoanExpansion(card, t, i), b);
    MyLoanExpansionRow(card, t, i, c, b);
  }

  lemma MyLoanExpansionRow(card: uint32, t: Title, i: Inventory, c: CheckedOut, b: MyBookRow)
    requires b in MyLoanExpansion(card, t, i)(c)
    ensures c.cardNum == card && b == MyBookRow(t.title, t.author, i.serial)
  {
  }

  lemma MyBookRowsComplete(db: Db, card: uint32, t: Title, i: Inventory, c: CheckedOut)
    requires t in db.titles && i in db.inventory && c in db.checkedOut
    requires i.isbn == t.isbn && c.serial == i.serial && c.cardNum == card
    ensures MyBookRow(t.title, t.author, i.serial) in MyBookRows(db, card)
  {
    var b := MyBookRow(t.title, t.author, i.serial);
    FlatMapIncludes(LoansOf(db, Some(i)), MyLoanExpansion(card, t, i), c, b);
    FlatMapIncludes(CopiesOf(db, t.isbn), MyCopyExpansion(db, card, t), i, b);
    FlatMapIncludes(db.titles, MyTitleExpansion(db, card), t, b);
  }

  /** `ListMyBooks`: exactly the (title, author, serial) triples of the
      session card's loans. Converting the logged-out card -1 raises. */
  function ListMyBooks(db: Db, s: Session): (r: Reply<seq<MyBookRow>>)
    ensures r.db == db && r.session == s
    ensures r.result.Failure? <==> s.card < 0
    ensures r.result.Success? ==> forall b :: b in r.result.value <==> LoanedRow(db, s.card, b)
  {
    match ToUInt32(s.card)
    case Failure(e) => Reply(Failure(e), db, s)
    case Success(card) =>
      var rows := MyBookRows(db, card);
      forall b
        ensures b in rows <==> LoanedRow(db, card, b)
      {
        MyBookRowsMembership(db, card, b);
      }
      Reply(Success(rows), db, s)
  }

  // ---------------------------------------------------- check out / return

  /** `CheckOutBook`: converts the session card, then the serial (either
      raising when negative), then inserts the loan row unconditionally. */
  function CheckOutBook(db: Db, s: Session, serial: int32): (r: Reply<bool>)
    ensures r.session == s
    ensures r.db.titles == db.titles && r.db.inventory == db.inventory && r.db.patrons == db.patrons
    ensures r.result.Failure? <==> s.card < 0 || serial < 0
    ensures r.result.Failure? ==> r.db == db
    ensures r.result.Success? ==>
      && r.result.value
      && |r.db.checkedOut| == |db.checkedOut| + 1
      && r.db.checkedOut[..|db.checkedOut|] == db.checkedOut
      && multiset(r.db.checkedOut) == multiset(db.checkedOut) + multiset{CheckedOut(s.card, serial)}
  {
    match ToUInt32(s.card)
    case Failure(e) => Reply(Failure(e), db, s)
    case Success(card) =>
      match ToUInt32(serial)
      case Failure(e) => Reply(Failure(e), db, s)
      case Success(sn) =>
        var loans := db.checkedOut + [CheckedOut(card, sn)];
        assert loans[..|db.checkedOut|] == db.checkedOut;
        Reply(Success(true), db.(checkedOut := loans), s)
  }

  /** `ReturnBook`: converts the serial and the session card (either
      raising when negative), then deletes the first loan row matching
      both, if there is one, and reports success either way. */
  function ReturnBook(db: Db, s: Session, serial: int32): (r: Reply<bool>)
    ensures r.session == s
    ensures r.db.titles == db.titles && r.db.inventory == db.inventory && r.db.patrons == db.patrons
    ensures r.result.Failure? <==> s.card < 0 || serial < 0
    ensures r.result.Failure? ==> r.db == db
    ensures r.result.Success? ==> r.result.value
    ensures r.result.Success? && CheckedOut(s.card, serial) !in db.checkedOut ==> r.db == db
    ensures r.result.Success? && CheckedOut(s.card, serial) in db.checkedOut ==>
      && multiset(r.db.checkedOut) == multiset(db.checkedOut) - multiset{CheckedOut(s.card, serial)}
      && exists k :: 0 <= k < |db.checkedOut| && db.checkedOut[k] == CheckedOut(s.card, serial)
           && CheckedOut(s.card, serial) !in db.checkedOut[..k]
           && r.db.checkedOut == db.checkedOut[..k] + db.checkedOut[k + 1..]
  {
    match ToUInt32(serial)
    case Failure(e) => Reply(Failure(e), db, s)
    case Success(sn) =>
      match ToUInt32(s.card)
      case Failure(e) => Reply(Failure(e), db, s)
      case Success(card) =>
        var row := CheckedOut(card, sn);
        var matches := (c: CheckedOut) => c.serial == sn && c.cardNum == card;
        RemoveFirstOf(db.checkedOut, matches, row);
        if row in db.checkedOut then
          Reply(Success(true), db.(checkedOut := RemoveFirst(db.checkedOut, matches)), s)
        else
          Reply(Success(true), db, s)
  }
}
