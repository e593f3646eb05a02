/** The controller as a state machine over (database, session): the
    session is always the logged-out sentinel or a patron that logged in,
    and the schema's keys survive every action but one. */
module SessionMachine {
  import opened Wrappers
  import opened MachineInts
  import opened Relational
  import opened Tables
  import opened HomeController
  import LoanProofs

  /** The state-relevant actions of the controller, with their arguments. */
  datatype Action =
    | CheckLoginAction(name: string, cardnum: int32)
    | LogOutAction
    | LoginAction
    | AllTitlesAction
    | ListMyBooksAction
    | CheckOutBookAction(serial: int32)
    | ReturnBookAction(serial: int32)

  datatype State = State(db: Db, session: Session)

  /** The state an action leaves behind, whatever it returned or raised.
      Only `CheckedOut` is ever written. */
  function Step(st: State, a: Action): (st': State)
    ensures st'.db.titles == st.db.titles
    ensures st'.db.inventory == st.db.inventory
    ensures st'.db.patrons == st.db.patrons
  {
    match a
    case CheckLoginAction(name, cardnum) =>
      var r := CheckLogin(st.db, st.session, name, cardnum); State(r.db, r.session)
    case LogOutAction =>
      var r := LogOut(st.db, st.session); State(r.db, r.session)
    case LoginAction =>
      var r := Login(st.db, st.session); State(r.db, r.session)
    case AllTitlesAction =>
      var r := AllTitles(st.db, st.session); State(r.db, r.session)
    case ListMyBooksAction =>
      var r := ListMyBooks(st.db, st.session); State(r.db, r.session)
    case CheckOutBookAction(serial) =>
      var r := CheckOutBook(st.db, st.session, serial); State(r.db, r.session)
    case ReturnBookAction(serial) =>
      var r := ReturnBook(st.db, st.session, serial); State(r.db, r.session)
  }

  /** The actions in order, from `st`. */
  function Run(st: State, actions: seq<Action>): State
    decreases |actions|
  {
    if |actions| == 0 then st else Run(Step(st, actions[0]), actions[1..])
  }

  /** The session is the sentinel, or a name and non-negative card number
      that some patron row carries. */
  ghost predicate Authentic(st: State) {
    || st.session == LoggedOut
    || (0 <= st.session.card
        && exists p :: p in st.db.patrons && p.name == Some(st.session.user) && p.cardNum == st.session.card)
  }

  /** Every action keeps the session authentic. */
  lemma StepKeepsAuthentic(st: State, a: Action)
    requires Authentic(st)
    ensures Authentic(Step(st, a))
  {
  }

  /** From the start state, any run of actions keeps the session
      authentic: a session is only ever set by a matching login. */
  lemma {:induction false} RunKeepsAuthentic(st: State, actions: seq<Action>)
    requires Authentic(st)
    ensures Authentic(Run(st, actions))
    decreases |actions|
  {
    if |actions| > 0 {
      StepKeepsAuthentic(st, actions[0]);
      RunKeepsAuthentic(Step(st, actions[0]), actions[1..]);
    }
  }

  /** In an authentic state the session is logged in exactly when its
      card number is non-negative, so every loan action raises logged out. */
  lemma LoggedInIffCard(st: State)
    requires Authentic(st)
    ensures st.session != LoggedOut <==> 0 <= st.session.card
  {
  }

  /** The action checks out a copy that already has a loan row. */
  ghost predicate LendsLentCopy(st: State, a: Action) {
    && a.CheckOutBookAction?
    && 0 <= st.session.card && 0 <= a.serial
    && exists c :: c in st.db.checkedOut && c.serial == a.serial
  }

  /** Every action keeps the schema's keys, except checking out a copy
      already on loan, which always breaks the one-loan-per-serial key. */
  lemma StepKeepsKeys(st: State, a: Action)
    requires KeysUnique(st.db)
    ensures KeysUnique(Step(st, a).db) <==> !LendsLentCopy(st, a)
  {
    var db := st.db;
    match a
    case CheckOutBookAction(serial) =>
      if 0 <= st.session.card && 0 <= serial {
        LoanProofs.CheckOutKeepsLoanKey(db, st.session, serial);
      }
    case ReturnBookAction(serial) =>
      var d := Step(st, a).db;
      assert forall x :: multiset(d.checkedOut)[x] <= multiset(db.checkedOut)[x];
      KeyedSub(db.checkedOut, d.checkedOut, LoanSerial);
    case _ =>
  }

  /** `LogOut` and the `Login` page leave the same state, the sentinel
      session over unchanged tables, and logging out twice is logging out once. */
  lemma LogOutIsLoginReset(st: State)
    ensures LogOut(st.db, st.session).result == Success(true)
    ensures Step(st, LogOutAction) == Step(st, LoginAction)
    ensures Step(st, LogOutAction) == State(st.db, LoggedOut)
    ensures Step(Step(st, LogOutAction), LogOutAction) == Step(st, LogOutAction)
  {
  }
}
