# Library catalog: a verified model

This project models the in-memory library catalog of a small library web
application. The catalog holds three lists: books, members and checkouts. It
also has the handlers that change and read them:

- add a book, add a member: refuse an id that is already taken;
- delete a book, delete a member: drop every record with the id;
- check out: two guards in a fixed order ("Book not available", then
  "Member not found"), then mark the book unavailable and append an open
  checkout numbered `len(checkouts) + 1`;
- return: close an open checkout and make its book available again if the
  book still exists; an unknown or already returned checkout is ignored;
- the available-books view and the checkout listing, which joins each
  checkout with its book and member (`None` when that record is gone).

The store is an immutable datatype `Catalog.Store(books, members, checkouts)`.
Each handler is a pure function from a store and the handler's scalar
inputs to a `Step(store, outcome)`. The outcome is `Ok`, `DuplicateId`,
`BookNotAvailable`, `MemberNotFound` or `NoChange`. Python's
`next((x for x in xs if x.id == id), None)` is modelled as a first-match
lookup (`Keyed.FirstIndex`, `Keyed.Find`). List comprehensions are modelled
as an order-preserving filter (`Seqs.Filter`). The current time is a
parameter of type `Timestamp`, and `return_date` is an `Option`.

Modules, in dependency order:

- `wrappers.dfy` (`Wrappers`): `Option`.
- `seqs.dfy` (`Seqs`): filtering.
- `keyed.dfy` (`Keyed`): duplicate test, first-match lookup and removal by id.
- `records.dfy` (`Records`): `Book`, `Member`, `Checkout`.
- `catalog.dfy` (`Catalog`): the store and the handlers.
- `invariants.dfy` (`Invariants`): the invariant of every reachable store.
- `availability.dfy` (`Availability`): the two-way availability rule and where it breaks.
- `scenario.dfy` (`Scenario`): a concrete walk-through.

Every reachable store satisfies `Invariants.Valid`:

- book ids are pairwise distinct;
- member ids are pairwise distinct;
- the checkout at position `i` is number `i + 1`;
- every unavailable book has an open checkout carrying its id.

So a first-match lookup by id finds the only match (`Keyed.FirstIndexIsOnlyMatch`).

The code keeps only one direction of the rule "a book is unavailable exactly
while it has an open checkout" in every reachable store. The reverse
direction and "no book is lent twice at once" are proved to hold as long as
no lent book is deleted (`Availability.RunKeepsConsistent`). Deleting a lent
book leaves its checkout open; registering its id again then breaks both
rules: the new book is available while that checkout is open, and a second
checkout of the id succeeds (`Availability.DeleteWhileLentBreaksAvailability`).

The checkout handler runs the book guard first, so a request for a book
that is lent out is refused with "Book not available" whatever the member.
The walk-through in `Scenario.LendReturnWalkThrough` shows this: a second
request for book 1 by an unregistered member is refused by the book guard
while the book is lent, and by the member guard once it is back.

## Model

| member | source | states |
|---|---|---|
| Keyed.HasKey | main.py:52 | the duplicate test: some element of the list carries the id (a definition, with no contract) |
| Keyed.HasKeyAppend | main.py:52-55 | after appending an element, the duplicate test holds for an id exactly when it held before or the new element carries that id |
| Keyed.FirstIndex | main.py:111 | the lookup result is the position of an element with the id, and no earlier element has that id; `None` exactly when no element has the id |
| Keyed.Find | main.py:95-96 | the element found is the first element of the list that carries the id; `None` exactly when no element carries it |
| Keyed.FirstIndexIsOnlyMatch | main.py:111 | with pairwise distinct ids, the lookup of an element's id finds exactly that element |
| Keyed.FindIsExact | main.py:95-96 | with pairwise distinct ids, the lookup yields `x` if and only if `x` is in the list with that id |
| Keyed.RemoveKey | main.py:61 | every element whose id differs occurs in the result as often as in the input, and no element with the id remains; without such an element the list is unchanged |
| Keyed.RemoveKeyKeepsOrder | main.py:61 | any two surviving elements keep their relative order |
| Keyed.RemoveKeyKeepsUniqueKeys | main.py:85 | removal by id never creates a duplicate id |
| Keyed.AppendFreshKeepsUniqueKeys | main.py:52-55 | appending a record whose id is absent keeps ids pairwise distinct |
| Seqs.Filter | main.py:106 | the result contains exactly the elements of the input that pass the test and is never longer |
| Seqs.FilterCounts | main.py:106 | every element that passes the test occurs in the result exactly as often as in the input, and no other element occurs |
| Seqs.FilterAppend | main.py:61 | filtering a concatenation is the concatenation of the filtered parts, so filtering never reorders |
| Catalog.AddBook | main.py:50-56 | a taken id is reported as a duplicate and changes nothing; otherwise exactly one available book is appended after the unchanged earlier books, and members and checkouts stay |
| Catalog.DeleteBook | main.py:58-62 | the remaining books are exactly those with a different id; no book with the id is left; absent id means no change; members and checkouts stay |
| Catalog.DeleteBookCounts | main.py:61 | every book whose id differs remains exactly as often as before, and no copy of a book with the id remains |
| Catalog.DeleteBookKeepsOrder | main.py:61 | the remaining books keep their original order |
| Catalog.AddMember | main.py:74-80 | a taken id is reported as a duplicate and changes nothing; otherwise exactly one member is appended after the unchanged earlier members, and books and checkouts stay |
| Catalog.DeleteMember | main.py:82-86 | the remaining members are exactly those with a different id; absent id means no change; books and checkouts stay |
| Catalog.DeleteMemberCounts | main.py:85 | every member whose id differs remains exactly as often as before, and no copy of a member with the id remains |
| Catalog.DeleteMemberKeepsOrder | main.py:85 | the remaining members keep their original order |
| Catalog.CheckoutBook | main.py:109-123 | the book guard passes if and only if the first book with that id exists and is available, whatever the member; past the book guard it succeeds exactly when the member exists; any failure leaves the store unchanged; success marks that first book unavailable and appends one open checkout numbered count+1 with the given ids and time, members unchanged |
| Catalog.Release | main.py:129-131 | the first book with the id becomes available and nothing else changes; without such a book the list is unchanged |
| Catalog.ReturnCheckout | main.py:125-133 | the return succeeds if and only if the first checkout with that number exists and is open; otherwise nothing changes; success closes that first checkout at the given time, releases its book and leaves members alone |
| Catalog.ReturnTwiceIsNoChange | main.py:127-128 | a second return of the same checkout changes nothing |
| Catalog.AvailableBooks | main.py:106 | every available book occurs in the view as often as in the catalog, and no unavailable book occurs |
| Catalog.AvailableBooksKeepsOrder | main.py:106 | the view keeps catalog order |
| Catalog.ListCheckouts | main.py:90-102 | one row per checkout in order; the book (member) cell is `None` exactly when no book (member) has the referenced id, and otherwise the first record of the store with that id |
| Invariants.AddBookKeepsValid | main.py:52-55 | adding a book preserves the catalog invariant |
| Invariants.DeleteBookKeepsValid | main.py:61 | deleting a book preserves the catalog invariant |
| Invariants.AddMemberKeepsValid | main.py:76-79 | adding a member preserves the catalog invariant |
| Invariants.DeleteMemberKeepsValid | main.py:85 | deleting a member preserves the catalog invariant |
| Invariants.CheckoutKeepsValid | main.py:119-122 | a checkout preserves the invariant: the book made unavailable gets the new open checkout, numbered by its position |
| Invariants.ClosedKeepsValid | main.py:128-132 | closing a checkout and releasing its book preserves the invariant |
| Invariants.ReturnKeepsValid | main.py:127-132 | a return preserves the catalog invariant |
| Invariants.RunKeepsValid | main.py:31-33 | any sequence of requests preserves the catalog invariant |
| Invariants.ReachableIsValid | main.py:31-33 | every reachable store has distinct book ids, distinct member ids, checkout `i+1` at position `i`, and an open checkout for each unavailable book |
| Invariants.CheckoutOutcomeInValidStore | main.py:111-117 | in a valid store: "Book not available" if and only if no book with the id is available; "Member not found" if and only if one is but no member has the id; success if and only if both exist |
| Invariants.ReturnOutcomeInValidStore | main.py:127-128 | in a valid store a return succeeds if and only if checkout number `id` exists and is open |
| Invariants.ReturnReleasesBook | main.py:128-132 | in a valid store a successful return stamps checkout `id`, leaves all other checkouts alone and makes the referenced book, if present, available |
| Availability.AddBookKeepsConsistent | main.py:52-55 | adding a book preserves the two-way availability rule |
| Availability.DeleteBookKeepsConsistent | main.py:61 | deleting a book that is not lent out preserves the two-way availability rule |
| Availability.AddMemberKeepsConsistent | main.py:76-79 | adding a member preserves the two-way availability rule |
| Availability.DeleteMemberKeepsConsistent | main.py:85 | deleting a member preserves the two-way availability rule |
| Availability.CheckoutKeepsConsistent | main.py:119-122 | a checkout preserves the two-way availability rule and leaves at most one open checkout per book |
| Availability.ClosedKeepsConsistent | main.py:128-132 | closing the only open checkout of a book and releasing the book preserves the two-way rule |
| Availability.ReturnKeepsConsistent | main.py:125-133 | a return preserves the two-way availability rule |
| Availability.RunKeepsConsistent | main.py:31-33 | as long as no lent-out book is deleted, every request sequence keeps the two-way availability rule |
| Availability.DeleteWhileLentBreaksAvailability | main.py:58-62 | deleting a lent-out book and re-adding its id gives an available book with an open checkout, and a second simultaneous checkout of that id |
| Scenario.LendReturnWalkThrough | main.py:109-133 | the concrete walk-through: lend, refused re-lend, return, ignored second return, member guard |

## Left out

- HTTP routing, form parsing, template rendering, redirects and status
  codes (main.py:1-9, main.py:36-48 and every `return`). Only the outcome
  each handler chooses is modelled.
- `list_books` and `list_members` (main.py:42-44, main.py:66-68). They hand
  the lists over unchanged; the store's fields are those views.
- `datetime.utcnow()` (main.py:121, main.py:132). The time is the opaque
  `now` argument, and clock behaviour is not modelled.
- The `async` handlers and the module-global mutable lists. Requests are
  applied one at a time to an explicit store, so concurrency is not modelled.
- `crud.py`, `models.py` and `schemas.py`. This persistence layer is never
  called by the handlers. It includes the e-mail uniqueness constraint, which
  the handlers do not enforce.
- Title, author, name and e-mail contents. They are opaque strings.
- Python's conversion of form fields to `int` (a malformed field is rejected
  before the handler runs). Ids are unbounded integers, so nothing wraps.
