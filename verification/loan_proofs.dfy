/** What `ListMyBooks`, `CheckOutBook` and `ReturnBook` promise together:
    the list shows exactly the session card's loans, once each under the
    keys; a checkout is undone by a return; a second return is a no-op. */
module LoanProofs {
  import opened Wrappers
  import opened MachineInts
  import opened Relational
  import opened Tables
  import opened HomeController

  // ---------------------------------------------------------- ListMyBooks

  /** The loan behind a `ListMyBooks` row of one copy. */
  lemma MyRowOfCopy(db: Db, card: uint32, t: Title, i: Inventory, b: MyBookRow) returns (c: CheckedOut)
    requires b in MyRowsOfCopy(db, card, t, i)
    ensures c in LoansOf(db, Some(i)) && c.cardNum == card
    ensures b == MyBookRow(t.title, t.author, i.serial)
  {
    c := FlatMapSource(LoansOf(db, Some(i)), MyLoanExpansion(card, t, i), b);
    MyLoanExpansionRow(card, t, i, c, b);
  }

  /** Under the keys, only the copy with `b`'s serial yields `b`. */
  lemma OnlyCopyOfMyRow(db: Db, card: uint32, t: Title, i: Inventory, b: MyBookRow)
    requires KeyedBy(db.inventory, CopySerial) && i in db.inventory && b.serial == i.serial
    ensures forall j :: j in CopiesOf(db, t.isbn) && b in MyCopyExpansion(db, card, t)(j) ==> j == i
  {
    forall j | j in CopiesOf(db, t.isbn) && b in MyCopyExpansion(db, card, t)(j)
      ensures j == i
    {
      var _ := MyRowOfCopy(db, card, t, j, b);
      assert CopySerial(j) == CopySerial(i);
      KeyedSame(db.inventory, CopySerial, j, i);
    }
  }

  /** Under the keys, only the title owning copy `i` yields a row with `i`'s serial. */
  lemma OnlyTitleOfMyRow(db: Db, card: uint32, t: Title, i: Inventory, b: MyBookRow)
    requires KeysUnique(db) && t in db.titles && i in db.inventory && i.isbn == t.isbn
    requires b.serial == i.serial
    ensures forall x :: x in db.titles && b in MyTitleExpansion(db, card)(x) ==> x == t
  {
    forall x | x in db.titles && b in MyTitleExpansion(db, card)(x)
      ensures x == t
    {
      var j := FlatMapSource(CopiesOf(db, x.isbn), MyCopyExpansion(db, card, x), b);
      var _ := MyRowOfCopy(db, card, x, j, b);
      assert CopySerial(j) == CopySerial(i);
      KeyedSame(db.inventory, CopySerial, j, i);
      assert TitleIsbn(x) == TitleIsbn(t);
      KeyedSame(db.titles, TitleIsbn, x, t);
    }
  }

  /** Under the keys, a loan of copy `i` to card `card` yields one row
      within that copy. */
  lemma MyRowOnceInCopy(db: Db, card: uint32, t: Title, i: Inventory, c: CheckedOut)
    requires KeysUnique(db) && c in db.checkedOut && c.serial == i.serial && c.cardNum == card
    ensures multiset(MyRowsOfCopy(db, card, t, i))[MyBookRow(t.title, t.author, i.serial)] == 1
  {
    var b := MyBookRow(t.title, t.author, i.serial);
    var loans := LoansOf(db, Some(i));
    forall c' | c' in loans && b in MyLoanExpansion(card, t, i)(c')
      ensures c' == c
    {
      assert LoanSerial(c') == LoanSerial(c);
      KeyedSame(db.checkedOut, LoanSerial, c', c);
    }
    assert multiset(loans)[c] == 1 by {
      KeyedCountOne(db.checkedOut, LoanSerial, c);
    }
    assert MyLoanExpansion(card, t, i)(c) == [b];
    FlatMapCountOnce(loans, MyLoanExpansion(card, t, i), c, b);
  }

  /** Under the keys, each loan to the session card of a catalogued copy
      is listed exactly once, and no other row shows its serial. */
  lemma MyBookExactlyOnce(db: Db, s: Session, t: Title, i: Inventory, c: CheckedOut)
    requires KeysUnique(db) && 0 <= s.card
    requires t in db.titles && i in db.inventory && c in db.checkedOut
    requires i.isbn == t.isbn && c.serial == i.serial && c.cardNum == s.card
    ensures multiset(ListMyBooks(db, s).result.value)[MyBookRow(t.title, t.author, i.serial)] == 1
    ensures forall b :: b in ListMyBooks(db, s).result.value && b.serial == i.serial ==>
      b == MyBookRow(t.title, t.author, i.serial)
  {
    var card: uint32 := s.card;
    var b := MyBookRow(t.title, t.author, i.serial);
    assert multiset(MyRowsOfTitle(db, card, t))[b] == 1 by {
      MyRowOnceInCopy(db, card, t, i, c);
      OnlyCopyOfMyRow(db, card, t, i, b);
      assert i in CopiesOf(db, t.isbn);
      KeyedCountOne(db.inventory, CopySerial, i);
      FlatMapCountOnce(CopiesOf(db, t.isbn), MyCopyExpansion(db, card, t), i, b);
    }
    assert multiset(MyBookRows(db, card))[b] == 1 by {
      OnlyTitleOfMyRow(db, card, t, i, b);
      KeyedCountOne(db.titles, TitleIsbn, t);
      FlatMapCountOnce(db.titles, MyTitleExpansion(db, card), t, b);
    }
    forall b' | b' in MyBookRows(db, card) && b'.serial == i.serial
      ensures b' == b
    {
      var x := FlatMapSource(db.titles, MyTitleExpansion(db, card), b');
      OnlyTitleOfMyRow(db, card, t, i, b');
      var j := FlatMapSource(CopiesOf(db, t.isbn), MyCopyExpansion(db, card, t), b');
      OnlyCopyOfMyRow(db, card, t, i, b');
      var _ := MyRowOfCopy(db, card, t, i, b');
    }
  }

  // ------------------------------------------------- check out and return

  /** A checkout is visible at once in the same session's list. */
  lemma CheckOutThenListed(db: Db, s: Session, serial: int32, t: Title, i: Inventory)
    requires 0 <= s.card && 0 <= serial
    requires t in db.titles && i in db.inventory && i.isbn == t.isbn && i.serial == serial
    ensures var r := CheckOutBook(db, s, serial);
      var l := ListMyBooks(r.db, r.session);
      l.result.Success? && MyBookRow(t.title, t.author, i.serial) in l.result.value
  {
    var r := CheckOutBook(db, s, serial);
    var c := CheckedOut(s.card, serial);
    assert c in multiset(r.db.checkedOut);
    assert LoanedRow(r.db, s.card, MyBookRow(t.title, t.author, i.serial));
  }

  /** With loans keyed by serial, a checkout keeps the key exactly when
      the copy is not already on loan: the controller never checks, so a
      second checkout of a lent copy stores two loans for one serial. */
  lemma CheckOutKeepsLoanKey(db: Db, s: Session, serial: int32)
    requires KeyedBy(db.checkedOut, LoanSerial)
    requires 0 <= s.card && 0 <= serial
    ensures KeyedBy(CheckOutBook(db, s, serial).db.checkedOut, LoanSerial) <==>
      forall c :: c in db.checkedOut ==> c.serial != serial
  {
    var co := db.checkedOut;
    var co' := CheckOutBook(db, s, serial).db.checkedOut;
    var row := CheckedOut(s.card, serial);
    assert multiset(co') == multiset(co) + multiset{row};
    if forall c :: c in co ==> c.serial != serial {
      assert row !in co;
      forall x | multiset(co')[x] > 0
        ensures multiset(co')[x] <= 1
      {
      }
      forall x, y | x in co' && y in co' && LoanSerial(x) == LoanSerial(y)
        ensures x == y
      {
        assert x in multiset(co') && y in multiset(co');
        if x != row && y != row {
          assert x in co && y in co;
        }
      }
    } else {
      var c :| c in co && c.serial == serial;
      assert c in multiset(co') && row in multiset(co');
      assert c in co' && row in co';
      if c == row {
        assert multiset(co')[row] == multiset(co)[row] + 1;
        assert multiset(co')[row] >= 2;
      } else {
        assert LoanSerial(c) == LoanSerial(row);
      }
    }
  }

  /** Returning the copy just checked out restores the loans as a
      multiset; when the session held no such loan before, it restores the
      database exactly. */
  lemma ReturnUndoesCheckOut(db: Db, s: Session, serial: int32)
    requires 0 <= s.card && 0 <= serial
    ensures var d := ReturnBook(CheckOutBook(db, s, serial).db, s, serial).db;
      && multiset(d.checkedOut) == multiset(db.checkedOut)
      && (CheckedOut(s.card, serial) !in db.checkedOut ==> d == db)
  {
    var row := CheckedOut(s.card, serial);
    var co := db.checkedOut;
    var mid := CheckOutBook(db, s, serial).db;
    var co' := mid.checkedOut;
    assert row in multiset(co');
    var d := ReturnBook(mid, s, serial).db;
    if row !in co {
      var k :| 0 <= k < |co'| && co'[k] == row && row !in co'[..k]
        && d.checkedOut == co'[..k] + co'[k + 1..];
      assert k == |co|;
      assert co'[..k] == co;
      assert d.checkedOut == co;
    }
  }

  /** When the session's card holds the copy's loan row at most once,
      returning twice is returning once: same result, and the second call
      changes nothing. */
  lemma ReturnIdempotent(db: Db, s: Session, serial: int32)
    requires 0 <= s.card && 0 <= serial ==> multiset(db.checkedOut)[CheckedOut(s.card, serial)] <= 1
    ensures var r1 := ReturnBook(db, s, serial);
      var r2 := ReturnBook(r1.db, r1.session, serial);
      r2.result == r1.result && r2.db == r1.db && r2.session == r1.session
  {
    var r1 := ReturnBook(db, s, serial);
    if r1.result.Success? {
      var row := CheckedOut(s.card, serial);
      assert multiset(db.checkedOut)[row] <= 1;
      if row in db.checkedOut {
        assert multiset(r1.db.checkedOut)[row] == 0;
      }
      assert row !in r1.db.checkedOut;
    }
  }

  /** A return never deletes a loan of another card. */
  lemma ReturnKeepsOtherCards(db: Db, s: Session, serial: int32, c: CheckedOut)
    requires c in db.checkedOut && c.cardNum != s.card
    ensures c in ReturnBook(db, s, serial).db.checkedOut
  {
    var r := ReturnBook(db, s, serial);
    if r.result.Success? && CheckedOut(s.card, serial) in db.checkedOut {
      assert c != CheckedOut(s.card, serial);
      assert multiset(r.db.checkedOut)[c] == multiset(db.checkedOut)[c];
    }
  }

  /** When the session's card holds the copy's loan row at most once, a
      returned copy leaves the session's list. */
  lemma ReturnThenNotListed(db: Db, s: Session, serial: int32)
    requires 0 <= s.card && 0 <= serial
    requires multiset(db.checkedOut)[CheckedOut(s.card, serial)] <= 1
    ensures var r := ReturnBook(db, s, serial);
      forall b :: b in ListMyBooks(r.db, r.session).result.value ==> b.serial != serial
  {
    var r := ReturnBook(db, s, serial);
    var row := CheckedOut(s.card, serial);
    if row in db.checkedOut {
      assert multiset(r.db.checkedOut)[row] == 0;
    }
    assert row !in r.db.checkedOut;
    forall b | b in ListMyBooks(r.db, r.session).result.value
      ensures b.serial != serial
    {
      assert LoanedRow(r.db, s.card, b);
    }
  }

  /** Logged out, the card -1 makes every loan action raise and leave the
      tables alone. */
  lemma LoggedOutLoanActionsRaise(db: Db, serial: int32)
    ensures ListMyBooks(db, LoggedOut).result == Failure(OverflowException)
    ensures CheckOutBook(db, LoggedOut, serial) == Reply(Failure(OverflowException), db, LoggedOut)
    ensures ReturnBook(db, LoggedOut, serial) == Reply(Failure(OverflowException), db, LoggedOut)
  {
  }
}
