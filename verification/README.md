# Library web server controller, in Dafny

This project models `HomeController`, the controller of a small library
web server. The controller holds a process-wide login, made of the two
static fields `user` and `card`. It runs a handful of relational actions
over four tables:

- `Titles` (ISBN, title, author);
- `Inventory` (serial, ISBN), one row per physical copy;
- `CheckedOut` (card number, serial), one row per loan;
- `Patrons` (card number, name).

Each action is modelled as a pure function from (database, session,
arguments) to a `Reply`. A `Reply` holds the JSON payload or the raised
exception, plus the database and the session the action leaves behind.

Modules:

- `Wrappers`: `Option` and `Result`.
- `MachineInts`: C#'s `int` and `uint`, and `Convert.ToUInt32`. The
  conversion is partial: it raises `OverflowException` on a negative
  value.
- `Relational`: the LINQ operators the queries use, on sequences.
  - `Filter` for `where`.
  - `FlatMap` for `SelectMany` / `from … from …`.
  - `DefaultIfEmpty` for the left outer join.
  - `RemoveFirst` for `FirstOrDefault` followed by `Remove`.
  - `KeyedBy`, the primary-key predicate, with its counting lemmas.
- `Tables`: the four row types, their keys and the per-row join lookups.
  It also gives a plain-lookup definition of "the borrower's name".
- `HomeController`: the actions `CheckLogin`, `LogOut`, the `Login`
  reset, `AllTitles`, `ListMyBooks`, `CheckOutBook` and `ReturnBook`.
- `CatalogProofs`: what `AllTitles` lists, how often, and with which
  serial and name.
- `LoanProofs`: how `ListMyBooks`, `CheckOutBook` and `ReturnBook` relate.
- `SessionMachine`: the actions as one state machine, with the session
  invariant and the key invariant.
- `CatalogExample`: a three-title database and its exact catalog.

Several behaviours follow the code rather than the documentation
comments or what a reader might expect:

- `Convert.ToUInt32` is applied to the card number (and to the serial)
  before the store is queried.
  - A negative `cardnum` makes `CheckLogin` raise; it does not merely fail
    to match.
  - The logged-out card `-1` makes `ListMyBooks` raise; it does not
    return an empty list.
  - The logged-out card `-1` also makes `CheckOutBook` and `ReturnBook`
    raise.
- `CheckOutBook` inserts its row unconditionally. Its comment says the
  caller may assume the copy is not on loan, but the code does not check
  this. `LoanProofs.CheckOutKeepsLoanKey` shows that checking out a lent
  copy breaks the one-loan-per-serial key.
- The left joins compare against a missing (NULL) copy or loan. That
  comparison matches nothing, as in SQL.

The schema's key constraints are not visible in the controller:

- one title per ISBN;
- one copy per serial;
- one loan per serial;
- one patron per card.

They are stated as the predicate `Tables.KeysUnique`. The lemmas that
need these keys take them as a precondition.

## Model

| member | source | states |
|---|---|---|
| MachineInts.ToUInt32 | LibraryWebServer/Controllers/HomeController.cs:37 | the int-to-uint conversion succeeds exactly on non-negative values, keeps the value, and raises otherwise |
| HomeController.CheckLogin | LibraryWebServer/Controllers/HomeController.cs:31-48 | raises iff the card number is negative; answers true iff some patron row has exactly that name and card; on true the session becomes (name, card); on false or on raising the session is unchanged; the tables are never changed |
| HomeController.LogOut | LibraryWebServer/Controllers/HomeController.cs:57-62 | logging out does not change the tables |
| HomeController.Login | LibraryWebServer/Controllers/HomeController.cs:225-233 | the login page's reset does not change the tables |
| SessionMachine.LogOutIsLoginReset | LibraryWebServer/Controllers/HomeController.cs:57-62 | LogOut answers success; LogOut and the Login page leave the same state, the ("", -1) session over unchanged tables; logging out twice equals logging out once |
| Relational.Filter | LibraryWebServer/Controllers/HomeController.cs:37 | a `where` keeps exactly the rows satisfying the predicate, each as often as in the input |
| Relational.FlatMapMember | LibraryWebServer/Controllers/HomeController.cs:86-93 | a row of a `from … from …` query is produced iff some input row's expansion contains it |
| Relational.DefaultIfEmpty | LibraryWebServer/Controllers/HomeController.cs:88-92 | a group join followed by DefaultIfEmpty yields one NULL iff there is no match, and otherwise each matched row once per occurrence |
| Relational.RemoveFirst | LibraryWebServer/Controllers/HomeController.cs:169-176 | FirstOrDefault then Remove deletes exactly the first matching row and keeps the order of the rest; nothing changes when no row matches |
| Tables.BorrowerNameIsHolder | LibraryWebServer/Controllers/HomeController.cs:89-93 | the plain-lookup borrower name is "" for a copy with no loan; a non-empty name is the stored name of a patron holding a loan of that copy |
| Tables.HolderIsBorrowerName | LibraryWebServer/Controllers/HomeController.cs:89-93 | with loans keyed by serial and patrons by card, a lent copy shows the stored name of the patron holding it, or "" when that name is NULL |
| HomeController.AllTitles | LibraryWebServer/Controllers/HomeController.cs:75-97 | listing the catalog raises nothing and changes neither the tables nor the session |
| CatalogProofs.CatalogRowsSound | LibraryWebServer/Controllers/HomeController.cs:86-93 | every catalog row carries some title's columns; a NULL serial comes only with name "" from a title with no copy; otherwise the serial is a copy of that title, and the name is "" or the name of a patron holding that copy |
| CatalogProofs.EveryTitleListed | LibraryWebServer/Controllers/HomeController.cs:66-68 | every title appears in some row with its own ISBN, title and author |
| CatalogProofs.NoCopyTitleListed | LibraryWebServer/Controllers/HomeController.cs:69-93 | a title with no copy is listed with a NULL serial and name "" |
| CatalogProofs.CopyListed | LibraryWebServer/Controllers/HomeController.cs:70-93 | every copy of a title is listed with its serial; a copy not on loan is listed with name "" |
| CatalogProofs.RowsOfCopyUnderKeys | LibraryWebServer/Controllers/HomeController.cs:89-93 | with loans keyed by serial and patrons by card, the second and third left joins yield exactly one row per copy (or per NULL copy), equal to the plain-lookup reference row |
| CatalogProofs.CatalogUnderKeys | LibraryWebServer/Controllers/HomeController.cs:86-93 | under the keys, a row is in the catalog iff it is the NULL row of a title without copies or the reference row (serial and borrower name) of some copy of some title |
| CatalogProofs.CopyRowExactlyOnce | LibraryWebServer/Controllers/HomeController.cs:86-93 | under the keys, each copy's reference row occurs exactly once, and no other row shows that serial |
| CatalogProofs.LentCopyListedWithHolder | LibraryWebServer/Controllers/HomeController.cs:70-93 | under the keys, a lent copy is listed with its holder's stored name (or "" when NULL), and every row showing its serial shows that name |
| CatalogProofs.NoCopyRowExactlyOnce | LibraryWebServer/Controllers/HomeController.cs:69-93 | under the keys, a title without copies occurs in exactly one row, and no other row carries its ISBN |
| CatalogExample.ExampleCatalog | LibraryWebServer/Controllers/HomeController.cs:86-93 | for an unowned title, a shelved copy and a lent copy, the catalog is exactly three rows: NULL serial and ""; the serial and ""; the serial and the borrower's name; the sequence is stated in the model's title order, which the source does not fix |
| HomeController.ListMyBooks | LibraryWebServer/Controllers/HomeController.cs:108-124 | raises iff the session card is negative (logged out); otherwise lists a (title, author, serial) triple iff a title, a copy of it and a loan of that copy to the session card produce it; the serial is never NULL |
| HomeController.MyBookRowsMembership | LibraryWebServer/Controllers/HomeController.cs:118-122 | the inner join filtered on the card contains exactly the triples of that card's loans |
| LoanProofs.MyBookExactlyOnce | LibraryWebServer/Controllers/HomeController.cs:118-122 | under the keys, each loan to the session card of a catalogued copy is listed exactly once, and no other listed row shows its serial |
| HomeController.CheckOutBook | LibraryWebServer/Controllers/HomeController.cs:139-154 | raises iff the session card or the serial is negative, leaving the store untouched; otherwise answers success and appends exactly the row (card, serial) to CheckedOut; the other tables and the session never change |
| LoanProofs.CheckOutThenListed | LibraryWebServer/Controllers/HomeController.cs:141-151 | after a checkout, the same session's ListMyBooks shows the copy |
| LoanProofs.CheckOutKeepsLoanKey | LibraryWebServer/Controllers/HomeController.cs:134-151 | with loans keyed by serial, a checkout keeps the key iff the copy had no loan before |
| HomeController.ReturnBook | LibraryWebServer/Controllers/HomeController.cs:165-180 | raises iff the serial or the session card is negative, leaving the store untouched; otherwise answers success, deletes exactly the first (card, serial) row if there is one and is a no-op if there is none; only CheckedOut can change |
| LoanProofs.ReturnUndoesCheckOut | LibraryWebServer/Controllers/HomeController.cs:141-176 | a return right after a checkout of the same copy restores the loans as a multiset; when no such loan existed before, it restores the database exactly |
| LoanProofs.ReturnIdempotent | LibraryWebServer/Controllers/HomeController.cs:169-179 | when the session's (card, serial) loan row is stored at most once, a second return of the same serial answers as the first and changes nothing |
| LoanProofs.ReturnKeepsOtherCards | LibraryWebServer/Controllers/HomeController.cs:169-171 | a return never deletes a loan held by another card |
| LoanProofs.ReturnThenNotListed | LibraryWebServer/Controllers/HomeController.cs:169-176 | when the session's (card, serial) loan row is stored at most once, after a return the session's list no longer shows that serial |
| LoanProofs.LoggedOutLoanActionsRaise | LibraryWebServer/Controllers/HomeController.cs:108-180 | with the logged-out card -1, ListMyBooks, CheckOutBook and ReturnBook all raise, and the last two leave the database as it was |
| SessionMachine.Step | LibraryWebServer/Controllers/HomeController.cs:31-180 | no action changes Titles, Inventory or Patrons |
| SessionMachine.StepKeepsAuthentic | LibraryWebServer/Controllers/HomeController.cs:18-62 | every action keeps the session either the ("", -1) sentinel or a name and card some patron row carries |
| SessionMachine.RunKeepsAuthentic | LibraryWebServer/Controllers/HomeController.cs:18-62 | from an authentic state, every sequence of actions keeps the session authentic |
| SessionMachine.LoggedInIffCard | LibraryWebServer/Controllers/HomeController.cs:18-48 | in an authentic state, the session is logged in iff its card is non-negative |
| SessionMachine.StepKeepsKeys | LibraryWebServer/Controllers/HomeController.cs:139-180 | every action keeps the schema's keys, except a checkout of a copy already on loan, which always breaks them |

## Left out

- The Entity Framework context, `SaveChanges` and the `using` scopes. The
  store is a value passed in and returned.
- Database-side constraints: keys, foreign keys and column lengths. The
  keys are the assumed invariant `Tables.KeysUnique`. A storage error on
  a duplicate checkout is not modelled; the insert always happens.
- JSON serialisation, the HTTP attributes and routing. Payloads are
  Dafny values.
- The view actions `Index`, `MyBooks`, `About`, `Contact` and `Error`.
  Only the session reset inside `Login` is modelled.
- Concurrent requests racing on the static `user` and `card` fields.
  The session is threaded through the calls explicitly.
- Output order of `AllTitles` and `ListMyBooks`. The model fixes one
  order. The general properties speak only of membership and
  multiplicity; only the concrete `CatalogExample.ExampleCatalog` states
  a sequence, in the order the model produces.
- SQL collation, trailing-space padding and case-insensitive comparison
  of names and ISBNs. String equality is exact.
- NULL values in the `Titles` columns. Title, author and ISBN are always
  present; only a patron's name may be NULL.
- A NULL `name` argument to `CheckLogin`. Names are always strings.
- HomeController.LogOut: its contract states only that the tables are
  unchanged. The success answer and the reset session are stated in
  `SessionMachine.LogOutIsLoginReset`.
- HomeController.Login: its contract states only that the tables are
  unchanged. The reset session is stated in
  `SessionMachine.LogOutIsLoginReset`. The page's view data is not
  modelled.
- HomeController.AllTitles: its contract states only that nothing
  changes and nothing is raised. The contents of the rows are stated in
  the `CatalogProofs` lemmas.
- LoanProofs.ReturnIdempotent: it needs the session's (card, serial)
  loan row to be stored at most once. With two identical rows the second
  return deletes the second row, so the second call is not a no-op.
- LoanProofs.ReturnThenNotListed: it needs the same at-most-once
  condition. With two identical rows one return leaves the copy listed.
