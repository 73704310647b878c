/** The in-memory library catalog: three lists of records and the handlers
    that read and change them. Each handler is a pure function from a store
    (and the handler's scalar inputs) to the next store and the outcome the
    handler reports. */
module Catalog {
  import opened Wrappers
  import opened Records
  import Keyed
  import Seqs

  /** The catalog's whole state, each list in insertion order. */
  datatype Store = Store(books: seq<Book>, members: seq<Member>, checkouts: seq<Checkout>)

  /** The store the application starts with. */
  const Empty: Store := Store([], [], [])

  /** What a handler reports: success, one of the three errors it shows on
      the form, or that it silently did nothing. */
  datatype Outcome = Ok | DuplicateId | BookNotAvailable | MemberNotFound | NoChange

  /** The store after a handler ran, with the handler's outcome. */
  datatype Step = Step(store: Store, outcome: Outcome)

  // ---------------------------------------------------------------- books

  /** Registers a new, available book unless its id is taken. */
  function AddBook(s: Store, id: int, title: string, author: string): (r: Step)
    ensures Keyed.HasKey(s.books, BookId, id) ==> r == Step(s, DuplicateId)
    ensures !Keyed.HasKey(s.books, BookId, id) ==>
              && r.outcome == Ok
              && r.store.members == s.members
              && r.store.checkouts == s.checkouts
              && |r.store.books| == |s.books| + 1
              && r.store.books[..|s.books|] == s.books
              && r.store.books[|s.books|] == Book(id, title, author, true)
  {
    if Keyed.HasKey(s.books, BookId, id) then Step(s, DuplicateId)
    else Step(s.(books := s.books + [Book(id, title, author, true)]), Ok)
  }

  /** Drops every book with the given id; checkouts that refer to it stay. */
  function DeleteBook(s: Store, id: int): (r: Store)
    ensures r.members == s.members && r.checkouts == s.checkouts
    ensures forall b :: b in r.books <==> b in s.books && b.id != id
    ensures !Keyed.HasKey(r.books, BookId, id)
    ensures !Keyed.HasKey(s.books, BookId, id) ==> r == s
  {
    s.(books := Keyed.RemoveKey(s.books, BookId, id))
  }

  /** Deleting a book keeps each remaining book exactly as often as before
      and drops every copy of a book with the id. */
  lemma DeleteBookCounts(s: Store, id: int)
    ensures forall b :: multiset(DeleteBook(s, id).books)[b] == if b.id != id then multiset(s.books)[b] else 0
  {
    assert DeleteBook(s, id).books == Keyed.RemoveKey(s.books, BookId, id);
  }

  /** Deleting a book keeps the remaining books in their original order. */
  lemma DeleteBookKeepsOrder(s: Store, id: int, i: int, j: int)
    requires 0 <= i < j < |s.books|
    requires s.books[i].id != id && s.books[j].id != id
    ensures exists p, q :: 0 <= p < q < |DeleteBook(s, id).books|
                           && DeleteBook(s, id).books[p] == s.books[i]
                           && DeleteBook(s, id).books[q] == s.books[j]
  {
    assert BookId(s.books[i]) != id && BookId(s.books[j]) != id;
    Keyed.RemoveKeyKeepsOrder(s.books, BookId, id, i, j);
    assert DeleteBook(s, id).books == Keyed.RemoveKey(s.books, BookId, id);
  }

  // -------------------------------------------------------------- members

  /** Registers a new member unless the id is taken. */
  function AddMember(s: Store, id: int, name: string, email: string): (r: Step)
    ensures Keyed.HasKey(s.members, MemberId, id) ==> r == Step(s, DuplicateId)
    ensures !Keyed.HasKey(s.members, MemberId, id) ==>
              && r.outcome == Ok
              && r.store.books == s.books
              && r.store.checkouts == s.checkouts
              && |r.store.members| == |s.members| + 1
              && r.store.members[..|s.members|] == s.members
              && r.store.members[|s.members|] == Member(id, name, email)
  {
    if Keyed.HasKey(s.members, MemberId, id) then Step(s, DuplicateId)
    else Step(s.(members := s.members + [Member(id, name, email)]), Ok)
  }

  /** Drops every member with the given id; checkouts that refer to it stay. */
  function DeleteMember(s: Store, id: int): (r: Store)
    ensures r.books == s.books && r.checkouts == s.checkouts
    ensures forall m :: m in r.members <==> m in s.members && m.id != id
    ensures !Keyed.HasKey(r.members, MemberId, id)
    ensures !Keyed.HasKey(s.members, MemberId, id) ==> r == s
  {
    s.(members := Keyed.RemoveKey(s.members, MemberId, id))
  }

  /** Deleting a member keeps each remaining member exactly as often as
      before and drops every copy of a member with the id. */
  lemma DeleteMemberCounts(s: Store, id: int)
    ensures forall m :: multiset(DeleteMember(s, id).members)[m] == if m.id != id then multiset(s.members)[m] else 0
  {
    assert DeleteMember(s, id).members == Keyed.RemoveKey(s.members, MemberId, id);
  }

  /** Deleting a member keeps the remaining members in their original order. */
  lemma DeleteMemberKeepsOrder(s: Store, id: int, i: int, j: int)
    requires 0 <= i < j < |s.members|
    requires s.members[i].id != id && s.members[j].id != id
    ensures exists p, q :: 0 <= p < q < |DeleteMember(s, id).members|
                           && DeleteMember(s, id).members[p] == s.members[i]
                           && DeleteMember(s, id).members[q] == s.members[j]
  {
    assert MemberId(s.members[i]) != id && MemberId(s.members[j]) != id;
    Keyed.RemoveKeyKeepsOrder(s.members, MemberId, id, i, j);
    assert DeleteMember(s, id).members == Keyed.RemoveKey(s.members, MemberId, id);
  }

  // ------------------------------------------------------------ checkouts

  /** `s'` is `s` after lending the first book with id `bookId` to
      `memberId` at time `now`: that book, which was available, is marked
      unavailable, and one open checkout numbered `|checkouts| + 1` is
      appended. */
  ghost predicate Lent(s: Store, s': Store, bookId: int, memberId: int, now: Timestamp)
  {
    && s'.members == s.members
    && s'.checkouts == s.checkouts + [Checkout(|s.checkouts| + 1, bookId, memberId, now, None)]
    && exists i :: && Keyed.IsFirstMatch(s.books, BookId, bookId, i)
                   && s.books[i].available
                   && s'.books == s.books[i := s.books[i].(available := false)]
  }

  /** Lends a book to a member. The book guard comes first: a missing or
      unavailable book is reported whatever the member; only then is the
      member looked up. A failed checkout changes nothing. */
  function CheckoutBook(s: Store, bookId: int, memberId: int, now: Timestamp): (r: Step)
    ensures r.outcome in {Ok, BookNotAvailable, MemberNotFound}
    ensures r.outcome != Ok ==> r.store == s
    // a corollary of the next clause, in the form the book guard is usually read
    ensures (forall i :: 0 <= i < |s.books| && s.books[i].id == bookId ==> !s.books[i].available)
              ==> r.outcome == BookNotAvailable
    ensures r.outcome != BookNotAvailable <==>
              exists i :: Keyed.IsFirstMatch(s.books, BookId, bookId, i) && s.books[i].available
    ensures r.outcome != BookNotAvailable ==>
              (r.outcome == Ok <==> Keyed.HasKey(s.members, MemberId, memberId))
    ensures r.outcome == Ok ==> Lent(s, r.store, bookId, memberId, now)
  {
    match Keyed.FirstIndex(s.books, BookId, bookId)
    case None => Step(s, BookNotAvailable)
    case Some(i) =>
      var book := s.books[i];
      if !book.available then Step(s, BookNotAvailable)
      else if Keyed.Find(s.members, MemberId, memberId).None? then Step(s, MemberNotFound)
      else
        var lent := Checkout(|s.checkouts| + 1, bookId, memberId, now, None);
        Step(Store(s.books[i := book.(available := false)], s.members, s.checkouts + [lent]), Ok)
  }

  /** Marks the first book with id `id` as available again; with no such
      book (it was deleted) the books stay as they are. */
  function Release(books: seq<Book>, id: int): (r: seq<Book>)
    ensures |r| == |books|
    ensures !Keyed.HasKey(books, BookId, id) ==> r == books
    ensures Keyed.HasKey(books, BookId, id) ==>
              exists j :: && 0 <= j < |books|
                          && books[j].id == id
                          && (forall k :: 0 <= k < j ==> books[k].id != id)
                          && r == books[j := books[j].(available := true)]
  {
    match Keyed.FirstIndex(books, BookId, id)
    case None => books
    case Some(j) => books[j := books[j].(available := true)]
  }

  /** `s'` is `s` after closing the open checkout at position `i` at time
      `now` and releasing its book. */
  ghost predicate Closed(s: Store, s': Store, i: int, now: Timestamp)
  {
    && 0 <= i < |s.checkouts|
    && IsOpen(s.checkouts[i])
    && s'.checkouts == s.checkouts[i := s.checkouts[i].(returnDate := Some(now))]
    && s'.members == s.members
    && s'.books == Release(s.books, s.checkouts[i].bookId)
  }

  /** Closes the first checkout numbered `checkoutId` if it is still open.
      An unknown number or a checkout already returned is silently ignored. */
  function ReturnCheckout(s: Store, checkoutId: int, now: Timestamp): (r: Step)
    ensures r.outcome in {Ok, NoChange}
    ensures r.outcome == NoChange ==> r.store == s
    // a corollary of the next clause: nothing open under that number, nothing to do
    ensures (forall i :: 0 <= i < |s.checkouts| && s.checkouts[i].id == checkoutId ==> !IsOpen(s.checkouts[i]))
              ==> r.outcome == NoChange
    ensures r.outcome == Ok <==>
              exists i :: Keyed.IsFirstMatch(s.checkouts, CheckoutId, checkoutId, i) && IsOpen(s.checkouts[i])
    ensures r.outcome == Ok ==>
              exists i :: Keyed.IsFirstMatch(s.checkouts, CheckoutId, checkoutId, i) && Closed(s, r.store, i, now)
  {
    match Keyed.FirstIndex(s.checkouts, CheckoutId, checkoutId)
    case None => Step(s, NoChange)
    case Some(i) =>
      var c := s.checkouts[i];
      if !IsOpen(c) then Step(s, NoChange)
      else
        var books := Release(s.books, c.bookId);
        Step(Store(books, s.members, s.checkouts[i := c.(returnDate := Some(now))]), Ok)
  }

  /** Returning the same checkout twice: the second return finds it closed
      and changes nothing, whatever the clock says. */
  lemma ReturnTwiceIsNoChange(s: Store, checkoutId: int, first: Timestamp, second: Timestamp)
    ensures var s1 := ReturnCheckout(s, checkoutId, first).store;
            ReturnCheckout(s1, checkoutId, second) == Step(s1, NoChange)
  {
    var r := ReturnCheckout(s, checkoutId, first);
    if r.outcome == Ok {
      var i :| Keyed.IsFirstMatch(s.checkouts, CheckoutId, checkoutId, i) && Closed(s, r.store, i, first);
      var cs := r.store.checkouts;
      assert CheckoutId(cs[i]) == checkoutId && !IsOpen(cs[i]);
      assert forall j :: 0 <= j < i ==> cs[j] == s.checkouts[j];
      assert Keyed.FirstIndex(cs, CheckoutId, checkoutId) == Some(i);
    }
  }

  // ---------------------------------------------------------------- views

  /** The books offered on the checkout form: those currently available,
      in catalog order. */
  function AvailableBooks(books: seq<Book>): (r: seq<Book>)
    ensures |r| <= |books|
    ensures forall b :: b in r <==> b in books && b.available
    ensures forall b :: multiset(r)[b] == if b.available then multiset(books)[b] else 0
  {
    Seqs.FilterCounts(books, IsAvailable);
    Seqs.Filter(books, IsAvailable)
  }

  /** The available-books view keeps catalog order. */
  lemma AvailableBooksKeepsOrder(books: seq<Book>, i: int, j: int)
    requires 0 <= i < j < |books|
    requires books[i].available && books[j].available
    ensures exists p, q :: 0 <= p < q < |AvailableBooks(books)|
                           && AvailableBooks(books)[p] == books[i]
                           && AvailableBooks(books)[q] == books[j]
  {
    assert IsAvailable(books[i]) && IsAvailable(books[j]);
    Seqs.FilterKeepsOrder(books, IsAvailable, i, j);
    assert AvailableBooks(books) == Seqs.Filter(books, IsAvailable);
  }

  /** One row of the checkout listing: the checkout with the book and member
      it refers to, or `None` where that record has since been deleted. */
  datatype Detail = Detail(checkout: Checkout, book: Option<Book>, member: Option<Member>)

  /** Joins every checkout, in order, with its book and member. A dangling
      reference yields `None` rather than an error. */
  method ListCheckouts(s: Store) returns (details: seq<Detail>)
    // in each row, the "in the store with that id" clause is a corollary of the first-match clause after it
    ensures |details| == |s.checkouts|
    ensures forall k :: 0 <= k < |details| ==> details[k].checkout == s.checkouts[k]
    ensures forall k :: 0 <= k < |details| ==>
              && (details[k].book.None? <==> !Keyed.HasKey(s.books, BookId, s.checkouts[k].bookId))
              && (details[k].book.Some? ==>
                    details[k].book.value in s.books && details[k].book.value.id == s.checkouts[k].bookId)
              && (details[k].book.Some? ==>
                    exists i :: Keyed.IsFirstMatch(s.books, BookId, s.checkouts[k].bookId, i)
                                && s.books[i] == details[k].book.value)
    ensures forall k :: 0 <= k < |details| ==>
              && (details[k].member.None? <==> !Keyed.HasKey(s.members, MemberId, s.checkouts[k].memberId))
              && (details[k].member.Some? ==>
                    details[k].member.value in s.members && details[k].member.value.id == s.checkouts[k].memberId)
              && (details[k].member.Some? ==>
                    exists i :: Keyed.IsFirstMatch(s.members, MemberId, s.checkouts[k].memberId, i)
                                && s.members[i] == details[k].member.value)
  {
    details := [];
    var k := 0;
    while k < |s.checkouts|
      invariant 0 <= k <= |s.checkouts|
      invariant |details| == k
      invariant forall n :: 0 <= n < k ==> details[n].checkout == s.checkouts[n]
      invariant forall n :: 0 <= n < k ==>
                  details[n].book == Keyed.Find(s.books, BookId, s.checkouts[n].bookId)
      invariant forall n :: 0 <= n < k ==>
                  details[n].member == Keyed.Find(s.members, MemberId, s.checkouts[n].memberId)
    {
      var c := s.checkouts[k];
      var book := Keyed.Find(s.books, BookId, c.bookId);
      var member := Keyed.Find(s.members, MemberId, c.memberId);
      details := details + [Detail(c, book, member)];
      k := k + 1;
    }
  }
}
