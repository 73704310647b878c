/** The availability rule in both directions: a book is unavailable exactly
    while an open checkout refers to it. The handlers keep this stronger rule
    as long as no book is deleted while it is lent out; deleting such a book
    and registering its id again breaks it, and then the same book id can be
    lent twice at once. */
module Availability {
  import opened Wrappers
  import opened Records
  import opened Catalog
  import opened Invariants
  import Keyed
  import Seqs

  /** The catalog invariant, plus: every open checkout refers to an existing
      book, no book id has two open checkouts, and a book is unavailable
      exactly when an open checkout carries its id. */
  ghost predicate Consistent(s: Store)
  {
    && Valid(s)
    && (forall j :: 0 <= j < |s.books| ==>
          (!s.books[j].available <==> HasOpenCheckout(s.checkouts, s.books[j].id)))
    && (forall p :: 0 <= p < |s.checkouts| && IsOpen(s.checkouts[p]) ==>
          Keyed.HasKey(s.books, BookId, s.checkouts[p].bookId))
    && (forall p, q :: 0 <= p < q < |s.checkouts| && IsOpen(s.checkouts[p]) && IsOpen(s.checkouts[q]) ==>
          s.checkouts[p].bookId != s.checkouts[q].bookId)
  }

  lemma AddBookKeepsConsistent(s: Store, id: int, title: string, author: string)
    requires Consistent(s)
    ensures Consistent(AddBook(s, id, title, author).store)
  {
    AddBookKeepsValid(s, id, title, author);
    var s' := AddBook(s, id, title, author).store;
    if !Keyed.HasKey(s.books, BookId, id) {
      assert s'.books == s.books + [Book(id, title, author, true)];
      assert !HasOpenCheckout(s.checkouts, id);
      forall p | 0 <= p < |s'.checkouts| && IsOpen(s'.checkouts[p])
        ensures Keyed.HasKey(s'.books, BookId, s'.checkouts[p].bookId)
      {
        var k :| 0 <= k < |s.books| && BookId(s.books[k]) == s.checkouts[p].bookId;
        assert s'.books[k] == s.books[k];
      }
    }
  }

  lemma AddMemberKeepsConsistent(s: Store, id: int, name: string, email: string)
    requires Consistent(s)
    ensures Consistent(AddMember(s, id, name, email).store)
  {
    AddMemberKeepsValid(s, id, name, email);
  }

  lemma DeleteMemberKeepsConsistent(s: Store, id: int)
    requires Consistent(s)
    ensures Consistent(DeleteMember(s, id))
  {
    DeleteMemberKeepsValid(s, id);
  }

  /** `s'` keeps the members and checkouts of `s` and exactly those books
      of `s` whose id is not `id`. */
  ghost predicate BooksDropped(s: Store, s': Store, id: int)
  {
    && s'.members == s.members
    && s'.checkouts == s.checkouts
    && forall b :: b in s'.books <==> b in s.books && b.id != id
  }

  lemma DroppedKeepsAvailabilityRule(s: Store, s': Store, id: int)
    requires Consistent(s)
    requires BooksDropped(s, s', id)
    ensures forall j :: 0 <= j < |s'.books| ==>
              (!s'.books[j].available <==> HasOpenCheckout(s'.checkouts, s'.books[j].id))
  {
    forall j | 0 <= j < |s'.books|
      ensures !s'.books[j].available <==> HasOpenCheckout(s'.checkouts, s'.books[j].id)
    {
      assert s'.books[j] in s'.books;
      var k :| 0 <= k < |s.books| && s.books[k] == s'.books[j];
    }
  }

  lemma DroppedKeepsReferences(s: Store, s': Store, id: int)
    requires Consistent(s)
    requires !HasOpenCheckout(s.checkouts, id)
    requires BooksDropped(s, s', id)
    ensures forall p :: 0 <= p < |s'.checkouts| && IsOpen(s'.checkouts[p]) ==>
              Keyed.HasKey(s'.books, BookId, s'.checkouts[p].bookId)
  {
    forall p | 0 <= p < |s'.checkouts| && IsOpen(s'.checkouts[p])
      ensures Keyed.HasKey(s'.books, BookId, s'.checkouts[p].bookId)
    {
      var k :| 0 <= k < |s.books| && BookId(s.books[k]) == s.checkouts[p].bookId;
      assert s.books[k].id != id;
      assert s.books[k] in s'.books;
      var n :| 0 <= n < |s'.books| && s'.books[n] == s.books[k];
    }
  }

  /** Deleting a book that is not lent out keeps the stronger rule. */
  lemma DeleteBookKeepsConsistent(s: Store, id: int)
    requires Consistent(s)
    requires !HasOpenCheckout(s.checkouts, id)
    ensures Consistent(DeleteBook(s, id))
  {
    DeleteBookKeepsValid(s, id);
    var s' := DeleteBook(s, id);
    assert BooksDropped(s, s', id);
    DroppedKeepsAvailabilityRule(s, s', id);
    DroppedKeepsReferences(s, s', id);
  }

  /** `s'` is `s` after the book at position `i` was lent out under a new
      open checkout appended at the end. */
  ghost predicate LentAt(s: Store, s': Store, i: int, c: Checkout)
  {
    && 0 <= i < |s.books|
    && s.books[i].id == c.bookId
    && s.books[i].available
    && IsOpen(c)
    && s'.books == s.books[i := s.books[i].(available := false)]
    && s'.checkouts == s.checkouts + [c]
  }

  lemma LentKeepsAvailabilityRule(s: Store, s': Store, i: int, c: Checkout)
    requires Consistent(s)
    requires LentAt(s, s', i, c)
    ensures forall j :: 0 <= j < |s'.books| ==>
              (!s'.books[j].available <==> HasOpenCheckout(s'.checkouts, s'.books[j].id))
  {
    var n := |s.checkouts|;
    assert s'.checkouts[n] == c;
    forall j | 0 <= j < |s'.books|
      ensures !s'.books[j].available <==> HasOpenCheckout(s'.checkouts, s'.books[j].id)
    {
      if j != i {
        assert s'.books[j] == s.books[j] && s.books[j].id != c.bookId;
        if HasOpenCheckout(s'.checkouts, s'.books[j].id) {
          var p :| 0 <= p < |s'.checkouts| && s'.checkouts[p].bookId == s.books[j].id && IsOpen(s'.checkouts[p]);
          assert p < n && s'.checkouts[p] == s.checkouts[p];
        }
        if !s.books[j].available {
          var p :| 0 <= p < n && s.checkouts[p].bookId == s.books[j].id && IsOpen(s.checkouts[p]);
          assert s'.checkouts[p] == s.checkouts[p];
        }
      }
    }
  }

  lemma LentKeepsReferences(s: Store, s': Store, i: int, c: Checkout)
    requires Consistent(s)
    requires LentAt(s, s', i, c)
    ensures forall p :: 0 <= p < |s'.checkouts| && IsOpen(s'.checkouts[p]) ==>
              Keyed.HasKey(s'.books, BookId, s'.checkouts[p].bookId)
  {
    var n := |s.checkouts|;
    forall p | 0 <= p < |s'.checkouts| && IsOpen(s'.checkouts[p])
      ensures Keyed.HasKey(s'.books, BookId, s'.checkouts[p].bookId)
    {
      if p < n {
        assert s'.checkouts[p] == s.checkouts[p];
        var k :| 0 <= k < |s.books| && BookId(s.books[k]) == s.checkouts[p].bookId;
        assert BookId(s'.books[k]) == BookId(s.books[k]);
      } else {
        assert s'.checkouts[p] == c;
        assert BookId(s'.books[i]) == c.bookId;
      }
    }
  }

  lemma LentKeepsOneOpenPerBook(s: Store, s': Store, i: int, c: Checkout)
    requires Consistent(s)
    requires LentAt(s, s', i, c)
    ensures forall p, q :: 0 <= p < q < |s'.checkouts| && IsOpen(s'.checkouts[p]) && IsOpen(s'.checkouts[q]) ==>
              s'.checkouts[p].bookId != s'.checkouts[q].bookId
  {
    var n := |s.checkouts|;
    assert !HasOpenCheckout(s.checkouts, c.bookId);
    forall p, q | 0 <= p < q < |s'.checkouts| && IsOpen(s'.checkouts[p]) && IsOpen(s'.checkouts[q])
      ensures s'.checkouts[p].bookId != s'.checkouts[q].bookId
    {
      assert s'.checkouts[p] == s.checkouts[p];
      if q < n {
        assert s'.checkouts[q] == s.checkouts[q];
      } else {
        assert s'.checkouts[q] == c;
      }
    }
  }

  lemma CheckoutKeepsConsistent(s: Store, bookId: int, memberId: int, now: Timestamp)
    requires Consistent(s)
    ensures Consistent(CheckoutBook(s, bookId, memberId, now).store)
  {
    CheckoutKeepsValid(s, bookId, memberId, now);
    var r := CheckoutBook(s, bookId, memberId, now);
    if r.outcome == Ok {
      var s' := r.store;
      var c := Checkout(|s.checkouts| + 1, bookId, memberId, now, None);
      var i :| && 0 <= i < |s.books| && s.books[i].id == bookId && s.books[i].available
                && s'.books == s.books[i := s.books[i].(available := false)];
      assert LentAt(s, s', i, c);
      LentKeepsAvailabilityRule(s, s', i, c);
      LentKeepsReferences(s, s', i, c);
      LentKeepsOneOpenPerBook(s, s', i, c);
    }
  }

  /** Closing checkout `i` keeps the stronger rule: it was the only open
      checkout of its book, and that book exists and becomes available. */
  lemma ClosedKeepsConsistent(s: Store, s': Store, i: int, now: Timestamp)
    requires Consistent(s)
    requires Closed(s, s', i, now)
    ensures Consistent(s')
  {
    ClosedKeepsValid(s, s', i, now);
    var bid := s.checkouts[i].bookId;
    var j :| && 0 <= j < |s.books| && s.books[j].id == bid
             && s'.books == s.books[j := s.books[j].(available := true)];
    forall m | 0 <= m < |s'.books|
      ensures !s'.books[m].available <==> HasOpenCheckout(s'.checkouts, s'.books[m].id)
    {
      if m == j {
        forall p | 0 <= p < |s'.checkouts| && s'.checkouts[p].bookId == bid
          ensures !IsOpen(s'.checkouts[p])
        {
          if p != i {
            assert s'.checkouts[p] == s.checkouts[p];
          }
        }
      } else {
        assert s'.books[m] == s.books[m] && s.books[m].id != bid;
        if HasOpenCheckout(s'.checkouts, s'.books[m].id) {
          var p :| 0 <= p < |s'.checkouts| && s'.checkouts[p].bookId == s.books[m].id && IsOpen(s'.checkouts[p]);
          assert p != i && s'.checkouts[p] == s.checkouts[p];
        }
        if !s.books[m].available {
          var p :| 0 <= p < |s.checkouts| && s.checkouts[p].bookId == s.books[m].id && IsOpen(s.checkouts[p]);
          assert p != i && s'.checkouts[p] == s.checkouts[p];
        }
      }
    }
    forall p | 0 <= p < |s'.checkouts| && IsOpen(s'.checkouts[p])
      ensures Keyed.HasKey(s'.books, BookId, s'.checkouts[p].bookId)
    {
      assert p != i && s'.checkouts[p] == s.checkouts[p];
      var k :| 0 <= k < |s.books| && BookId(s.books[k]) == s.checkouts[p].bookId;
      assert BookId(s'.books[k]) == BookId(s.books[k]);
    }
    forall p, q | 0 <= p < q < |s'.checkouts| && IsOpen(s'.checkouts[p]) && IsOpen(s'.checkouts[q])
      ensures s'.checkouts[p].bookId != s'.checkouts[q].bookId
    {
      assert p != i && q != i;
      assert s'.checkouts[p] == s.checkouts[p] && s'.checkouts[q] == s.checkouts[q];
    }
  }

  lemma ReturnKeepsConsistent(s: Store, checkoutId: int, now: Timestamp)
    requires Consistent(s)
    ensures Consistent(ReturnCheckout(s, checkoutId, now).store)
  {
    var r := ReturnCheckout(s, checkoutId, now);
    if r.outcome == Ok {
      var i :| 0 <= i < |s.checkouts| && s.checkouts[i].id == checkoutId && Closed(s, r.store, i, now);
      ClosedKeepsConsistent(s, r.store, i, now);
    }
  }

  /** The request does not delete a book that is lent out. */
  ghost predicate SparesLentBooks(s: Store, req: Request)
  {
    req.DeleteBookRequest? ==> !HasOpenCheckout(s.checkouts, req.id)
  }

  /** No request in `reqs`, served from `s`, deletes a book that is lent out
      at that moment. */
  ghost predicate NeverDeletesLentBook(s: Store, reqs: seq<Request>)
    decreases |reqs|
  {
    |reqs| > 0 ==> SparesLentBooks(s, reqs[0]) && NeverDeletesLentBook(Apply(s, reqs[0]), reqs[1..])
  }

  lemma ApplyKeepsConsistent(s: Store, req: Request)
    requires Consistent(s)
    requires SparesLentBooks(s, req)
    ensures Consistent(Apply(s, req))
  {
    match req
    case AddBookRequest(id, title, author) => AddBookKeepsConsistent(s, id, title, author);
    case DeleteBookRequest(id) => DeleteBookKeepsConsistent(s, id);
    case AddMemberRequest(id, name, email) => AddMemberKeepsConsistent(s, id, name, email);
    case DeleteMemberRequest(id) => DeleteMemberKeepsConsistent(s, id);
    case CheckoutRequest(bookId, memberId, now) => CheckoutKeepsConsistent(s, bookId, memberId, now);
    case ReturnRequest(checkoutId, now) => ReturnKeepsConsistent(s, checkoutId, now);
  }

  /** As long as no lent-out book is deleted, a book is unavailable exactly
      while it has an open checkout, and no book is lent twice at once. */
  lemma {:induction false} RunKeepsConsistent(s: Store, reqs: seq<Request>)
    requires Consistent(s)
    requires NeverDeletesLentBook(s, reqs)
    ensures Consistent(Run(s, reqs))
    decreases |reqs|
  {
    if |reqs| > 0 {
      ApplyKeepsConsistent(s, reqs[0]);
      RunKeepsConsistent(Apply(s, reqs[0]), reqs[1..]);
    }
  }

  /** Registering book 1 and member 1 and lending the book gives a store
      that keeps the two-way rule. */
  lemma LendFirstBook()
    ensures var s2 := AddMember(AddBook(Empty, 1, "Dune", "Herbert").store, 1, "Alice", "a@x.com").store;
            var s3 := CheckoutBook(s2, 1, 1, 0).store;
            && s3 == Store([Book(1, "Dune", "Herbert", false)], [Member(1, "Alice", "a@x.com")],
                           [Checkout(1, 1, 1, 0, None)])
            && Consistent(s3)
  {
    var dune := Book(1, "Dune", "Herbert", true);
    var alice := Member(1, "Alice", "a@x.com");
    var s1 := AddBook(Empty, 1, "Dune", "Herbert").store;
    assert s1 == Store([dune], [], []);
    var s2 := AddMember(s1, 1, "Alice", "a@x.com").store;
    assert s2 == Store([dune], [alice], []);
    assert BookId(s2.books[0]) == 1 && MemberId(s2.members[0]) == 1;
    var s3 := CheckoutBook(s2, 1, 1, 0).store;
    var lent := Checkout(1, 1, 1, 0, None);
    assert s3 == Store([dune.(available := false)], [alice], [lent]);
    assert HasOpenCheckout(s3.checkouts, 1) by { assert s3.checkouts[0] == lent; }
    assert Keyed.HasKey(s3.books, BookId, 1) by { assert BookId(s3.books[0]) == 1; }
  }

  /** Deleting the lent book leaves its checkout open. */
  lemma DeleteLentBook()
    ensures DeleteBook(Store([Book(1, "Dune", "Herbert", false)], [Member(1, "Alice", "a@x.com")],
                             [Checkout(1, 1, 1, 0, None)]), 1)
            == Store([], [Member(1, "Alice", "a@x.com")], [Checkout(1, 1, 1, 0, None)])
  {
    var lentDune := Book(1, "Dune", "Herbert", false);
    var keep := Keyed.KeyIsNot(BookId, 1);
    assert !keep(lentDune);
    assert Keyed.RemoveKey([lentDune], BookId, 1) == Seqs.Filter([lentDune], keep);
  }

  /** Deleting a lent-out book and registering its id again yields an
      available book with an open checkout, and a second checkout of that
      id then succeeds: two open checkouts for one book id at once. */
  lemma DeleteWhileLentBreaksAvailability()
    ensures var s1 := AddBook(Empty, 1, "Dune", "Herbert").store;
            var s2 := AddMember(s1, 1, "Alice", "a@x.com").store;
            var s3 := CheckoutBook(s2, 1, 1, 0).store;
            var s4 := DeleteBook(s3, 1);
            var s5 := AddBook(s4, 1, "Dune", "Herbert").store;
            var r6 := CheckoutBook(s5, 1, 1, 1);
            && Consistent(s3)
            && HasOpenCheckout(s3.checkouts, 1)
            && s5.books == [Book(1, "Dune", "Herbert", true)]
            && IsOpen(s5.checkouts[0]) && s5.checkouts[0].bookId == 1
            && !Consistent(s5)
            && r6.outcome == Ok
            && |r6.store.checkouts| == 2
            && IsOpen(r6.store.checkouts[0]) && IsOpen(r6.store.checkouts[1])
            && r6.store.checkouts[0].bookId == r6.store.checkouts[1].bookId == 1
  {
    var dune := Book(1, "Dune", "Herbert", true);
    var alice := Member(1, "Alice", "a@x.com");
    var lent := Checkout(1, 1, 1, 0, None);
    LendFirstBook();
    DeleteLentBook();
    var s3 := Store([dune.(available := false)], [alice], [lent]);
    assert HasOpenCheckout(s3.checkouts, 1) by { assert s3.checkouts[0] == lent; }
    var s4 := Store([], [alice], [lent]);
    var s5 := AddBook(s4, 1, "Dune", "Herbert").store;
    assert s5 == Store([dune], [alice], [lent]);
    assert HasOpenCheckout(s5.checkouts, s5.books[0].id) by { assert s5.checkouts[0] == lent; }
    assert BookId(s5.books[0]) == 1 && MemberId(s5.members[0]) == 1;
    var r6 := CheckoutBook(s5, 1, 1, 1);
    assert r6.store.checkouts == [lent, Checkout(2, 1, 1, 1, None)];
  }
}
