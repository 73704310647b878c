/** The invariant every reachable catalog satisfies, proved to be preserved
    by each handler and therefore by any sequence of requests. */
module Invariants {
  import opened Wrappers
  import opened Records
  import opened Catalog
  import Keyed

  /** Checkout numbers are assigned as `count + 1` and checkouts are never
      removed, so the checkout at position `i` is number `i + 1`. */
  ghost predicate SequentialIds(cs: seq<Checkout>)
  {
    forall i :: 0 <= i < |cs| ==> cs[i].id == i + 1
  }

  /** Some open checkout refers to the book id `bookId`. */
  ghost predicate HasOpenCheckout(cs: seq<Checkout>, bookId: int)
  {
    exists i :: 0 <= i < |cs| && cs[i].bookId == bookId && IsOpen(cs[i])
  }

  /** A book is unavailable only while some open checkout carries its id. */
  ghost predicate UnavailableIsLent(s: Store)
  {
    forall j :: 0 <= j < |s.books| && !s.books[j].available ==> HasOpenCheckout(s.checkouts, s.books[j].id)
  }

  /** The catalog invariant. */
  ghost predicate Valid(s: Store)
  {
    && Keyed.UniqueKeys(s.books, BookId)
    && Keyed.UniqueKeys(s.members, MemberId)
    && SequentialIds(s.checkouts)
    && UnavailableIsLent(s)
  }

  lemma AddBookKeepsValid(s: Store, id: int, title: string, author: string)
    requires Valid(s)
    ensures Valid(AddBook(s, id, title, author).store)
  {
    if !Keyed.HasKey(s.books, BookId, id) {
      Keyed.AppendFreshKeepsUniqueKeys(s.books, BookId, Book(id, title, author, true));
      assert AddBook(s, id, title, author).store.books == s.books + [Book(id, title, author, true)];
    }
  }

  lemma DeleteBookKeepsValid(s: Store, id: int)
    requires Valid(s)
    ensures Valid(DeleteBook(s, id))
  {
    var r := DeleteBook(s, id);
    Keyed.RemoveKeyKeepsUniqueKeys(s.books, BookId, id);
    forall j | 0 <= j < |r.books| && !r.books[j].available
      ensures HasOpenCheckout(r.checkouts, r.books[j].id)
    {
      assert r.books[j] in s.books;
      var k :| 0 <= k < |s.books| && s.books[k] == r.books[j];
    }
  }

  lemma AddMemberKeepsValid(s: Store, id: int, name: string, email: string)
    requires Valid(s)
    ensures Valid(AddMember(s, id, name, email).store)
  {
    if !Keyed.HasKey(s.members, MemberId, id) {
      Keyed.AppendFreshKeepsUniqueKeys(s.members, MemberId, Member(id, name, email));
      assert AddMember(s, id, name, email).store.members == s.members + [Member(id, name, email)];
    }
  }

  lemma DeleteMemberKeepsValid(s: Store, id: int)
    requires Valid(s)
    ensures Valid(DeleteMember(s, id))
  {
    Keyed.RemoveKeyKeepsUniqueKeys(s.members, MemberId, id);
  }

  lemma CheckoutKeepsValid(s: Store, bookId: int, memberId: int, now: Timestamp)
    requires Valid(s)
    ensures Valid(CheckoutBook(s, bookId, memberId, now).store)
  {
    var r := CheckoutBook(s, bookId, memberId, now);
    if r.outcome == Ok {
      var s' := r.store;
      var i :| && 0 <= i < |s.books| && s.books[i].id == bookId && s.books[i].available
                && s'.books == s.books[i := s.books[i].(available := false)];
      Keyed.UpdateKeepsUniqueKeys(s.books, BookId, i, s.books[i].(available := false));
      var n := |s.checkouts|;
      assert s'.checkouts[n].bookId == bookId && IsOpen(s'.checkouts[n]);
      forall j | 0 <= j < |s'.books| && !s'.books[j].available
        ensures HasOpenCheckout(s'.checkouts, s'.books[j].id)
      {
        if j != i {
          var p :| 0 <= p < n && s.checkouts[p].bookId == s.books[j].id && IsOpen(s.checkouts[p]);
          assert s'.checkouts[p] == s.checkouts[p];
        }
      }
    }
  }

  /** Closing a checkout keeps the invariant: the released book is the only
      book with that id, and every other unavailable book keeps the open
      checkout it had. */
  lemma ClosedKeepsValid(s: Store, s': Store, i: int, now: Timestamp)
    requires Valid(s)
    requires Closed(s, s', i, now)
    ensures Valid(s')
  {
    var bid := s.checkouts[i].bookId;
    var released := Keyed.HasKey(s.books, BookId, bid);
    var j: int := -1;
    if released {
      j :| && 0 <= j < |s.books| && s.books[j].id == bid
           && s'.books == s.books[j := s.books[j].(available := true)];
      Keyed.UpdateKeepsUniqueKeys(s.books, BookId, j, s.books[j].(available := true));
    }
    forall m | 0 <= m < |s'.books| && !s'.books[m].available
      ensures HasOpenCheckout(s'.checkouts, s'.books[m].id)
    {
      assert m != j && s'.books[m] == s.books[m];
      assert s.books[m].id != bid;
      var p :| 0 <= p < |s.checkouts| && s.checkouts[p].bookId == s.books[m].id && IsOpen(s.checkouts[p]);
      assert p != i && s'.checkouts[p] == s.checkouts[p];
    }
  }

  lemma ReturnKeepsValid(s: Store, checkoutId: int, now: Timestamp)
    requires Valid(s)
    ensures Valid(ReturnCheckout(s, checkoutId, now).store)
  {
    var r := ReturnCheckout(s, checkoutId, now);
    if r.outcome == Ok {
      var i :| 0 <= i < |s.checkouts| && s.checkouts[i].id == checkoutId && Closed(s, r.store, i, now);
      ClosedKeepsValid(s, r.store, i, now);
    }
  }

  /** One request to the catalog, with the inputs its handler receives. */
  datatype Request =
    | AddBookRequest(id: int, title: string, author: string)
    | DeleteBookRequest(id: int)
    | AddMemberRequest(id: int, name: string, email: string)
    | DeleteMemberRequest(id: int)
    | CheckoutRequest(bookId: int, memberId: int, now: Timestamp)
    | ReturnRequest(checkoutId: int, now: Timestamp)

  /** The store after the handler for `req` ran on `s`. */
  function Apply(s: Store, req: Request): Store
  {
    match req
    case AddBookRequest(id, title, author) => AddBook(s, id, title, author).store
    case DeleteBookRequest(id) => DeleteBook(s, id)
    case AddMemberRequest(id, name, email) => AddMember(s, id, name, email).store
    case DeleteMemberRequest(id) => DeleteMember(s, id)
    case CheckoutRequest(bookId, memberId, now) => CheckoutBook(s, bookId, memberId, now).store
    case ReturnRequest(checkoutId, now) => ReturnCheckout(s, checkoutId, now).store
  }

  /** The store after serving `reqs` one after the other, starting from `s`. */
  function Run(s: Store, reqs: seq<Request>): Store
    decreases |reqs|
  {
    if |reqs| == 0 then s else Run(Apply(s, reqs[0]), reqs[1..])
  }

  lemma ApplyKeepsValid(s: Store, req: Request)
    requires Valid(s)
    ensures Valid(Apply(s, req))
  {
    match req
    case AddBookRequest(id, title, author) => AddBookKeepsValid(s, id, title, author);
    case DeleteBookRequest(id) => DeleteBookKeepsValid(s, id);
    case AddMemberRequest(id, name, email) => AddMemberKeepsValid(s, id, name, email);
    case DeleteMemberRequest(id) => DeleteMemberKeepsValid(s, id);
    case CheckoutRequest(bookId, memberId, now) => CheckoutKeepsValid(s, bookId, memberId, now);
    case ReturnRequest(checkoutId, now) => ReturnKeepsValid(s, checkoutId, now);
  }

  lemma {:induction false} RunKeepsValid(s: Store, reqs: seq<Request>)
    requires Valid(s)
    ensures Valid(Run(s, reqs))
    decreases |reqs|
  {
    if |reqs| > 0 {
      ApplyKeepsValid(s, reqs[0]);
      RunKeepsValid(Apply(s, reqs[0]), reqs[1..]);
    }
  }

  /** Every store the application can reach satisfies the invariant; in
      particular, book ids and member ids are pairwise distinct, checkout
      number `i + 1` sits at position `i`, and every unavailable book has an
      open checkout. */
  lemma ReachableIsValid(reqs: seq<Request>)
    ensures Valid(Run(Empty, reqs))
    // implied by `Valid`; spelled out because it is the numbering rule callers rely on
    ensures forall i :: 0 <= i < |Run(Empty, reqs).checkouts| ==> Run(Empty, reqs).checkouts[i].id == i + 1
  {
    RunKeepsValid(Empty, reqs);
  }

  /** Some book with id `bookId` is on the shelf. */
  ghost predicate OnShelf(s: Store, bookId: int)
  {
    exists b :: b in s.books && b.id == bookId && b.available
  }

  /** Some member has id `memberId`. */
  ghost predicate Registered(s: Store, memberId: int)
  {
    exists m :: m in s.members && m.id == memberId
  }

  /** In a valid store the two checkout guards are decided by plain
      existence: the book guard fails exactly when no book with that id is
      available, and the member guard exactly when no member has that id. */
  lemma CheckoutOutcomeInValidStore(s: Store, bookId: int, memberId: int, now: Timestamp)
    requires Valid(s)
    ensures var r := CheckoutBook(s, bookId, memberId, now);
            && (r.outcome == BookNotAvailable <==> !OnShelf(s, bookId))
            && (r.outcome == MemberNotFound <==> OnShelf(s, bookId) && !Registered(s, memberId))
            && (r.outcome == Ok <==> OnShelf(s, bookId) && Registered(s, memberId))
  {
    var r := CheckoutBook(s, bookId, memberId, now);
    if OnShelf(s, bookId) {
      var b :| b in s.books && b.id == bookId && b.available;
      var i :| 0 <= i < |s.books| && s.books[i] == b;
      Keyed.FirstIndexIsOnlyMatch(s.books, BookId, i);
      assert r.outcome != BookNotAvailable;
    }
    assert Keyed.HasKey(s.members, MemberId, memberId) <==> Registered(s, memberId) by {
      if Keyed.HasKey(s.members, MemberId, memberId) {
        var k :| 0 <= k < |s.members| && MemberId(s.members[k]) == memberId;
        assert s.members[k] in s.members;
      }
    }
  }

  /** In a valid store a return succeeds exactly when checkout number
      `checkoutId` exists and is still open. */
  lemma ReturnOutcomeInValidStore(s: Store, checkoutId: int, now: Timestamp)
    requires Valid(s)
    ensures var r := ReturnCheckout(s, checkoutId, now);
            r.outcome == Ok <==> 1 <= checkoutId <= |s.checkouts| && IsOpen(s.checkouts[checkoutId - 1])
  {
    if 1 <= checkoutId <= |s.checkouts| {
      Keyed.FirstIndexIsOnlyMatch(s.checkouts, CheckoutId, checkoutId - 1);
    }
  }

  /** In a valid store a successful return closes checkout `checkoutId`
      (and no other) and makes its book available again if it still exists. */
  lemma ReturnReleasesBook(s: Store, checkoutId: int, now: Timestamp)
    requires Valid(s)
    requires ReturnCheckout(s, checkoutId, now).outcome == Ok
    ensures var s' := ReturnCheckout(s, checkoutId, now).store;
            && 1 <= checkoutId <= |s.checkouts|
            && s'.checkouts[checkoutId - 1].returnDate == Some(now)
            && (forall k :: 0 <= k < |s.checkouts| && k != checkoutId - 1 ==> s'.checkouts[k] == s.checkouts[k])
            && (forall b :: b in s.books && b.id == s.checkouts[checkoutId - 1].bookId
                  ==> b.(available := true) in s'.books)
  {
    var s' := ReturnCheckout(s, checkoutId, now).store;
    var i :| 0 <= i < |s.checkouts| && s.checkouts[i].id == checkoutId && Closed(s, s', i, now);
    assert i == checkoutId - 1;
    forall b | b in s.books && b.id == s.checkouts[i].bookId
      ensures b.(available := true) in s'.books
    {
      var k :| 0 <= k < |s.books| && s.books[k] == b;
      assert Keyed.HasKey(s.books, BookId, b.id) by { assert BookId(s.books[k]) == b.id; }
      var j :| && 0 <= j < |s.books| && s.books[j].id == b.id
               && s'.books == s.books[j := s.books[j].(available := true)];
      assert j == k;
      assert s'.books[j] == b.(available := true);
    }
  }
}
