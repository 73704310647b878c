/** The catalog's walk-through: one book, one member, a checkout, a refused
    second checkout, a return and a repeated return. */
module Scenario {
  import opened Wrappers
  import opened Records
  import opened Catalog
  import Keyed

  /** Lending book 1 to member 1 succeeds; asking for book 1 again (for a
      member that was never registered) is refused by the book guard, which
      runs first; the return makes the book available again and a second
      return is ignored. Once the book is back, the same request is refused
      by the member guard instead, and changes nothing. */
  lemma LendReturnWalkThrough(t1: Timestamp, t2: Timestamp, t3: Timestamp, t4: Timestamp)
    ensures var s1 := AddBook(Empty, 1, "Dune", "Herbert").store;
            var s2 := AddMember(s1, 1, "Alice", "a@x.com").store;
            var r3 := CheckoutBook(s2, 1, 1, t1);
            var r4 := CheckoutBook(r3.store, 1, 2, t2);
            var r5 := ReturnCheckout(r4.store, 1, t3);
            var r6 := ReturnCheckout(r5.store, 1, t4);
            var r7 := CheckoutBook(r5.store, 1, 2, t2);
            && r3.outcome == Ok
            && r3.store.books == [Book(1, "Dune", "Herbert", false)]
            && r3.store.checkouts == [Checkout(1, 1, 1, t1, None)]
            && r4 == Step(r3.store, BookNotAvailable)
            && r5.outcome == Ok
            && r5.store.books == [Book(1, "Dune", "Herbert", true)]
            && r5.store.checkouts == [Checkout(1, 1, 1, t1, Some(t3))]
            && r6 == Step(r5.store, NoChange)
            && r7 == Step(r5.store, MemberNotFound)
  {
    var dune := Book(1, "Dune", "Herbert", true);
    var alice := Member(1, "Alice", "a@x.com");
    var s1 := AddBook(Empty, 1, "Dune", "Herbert").store;
    assert s1 == Store([dune], [], []);
    var s2 := AddMember(s1, 1, "Alice", "a@x.com").store;
    assert s2 == Store([dune], [alice], []);
    assert BookId(s2.books[0]) == 1 && MemberId(s2.members[0]) == 1;
    var r3 := CheckoutBook(s2, 1, 1, t1);
    assert r3.store == Store([dune.(available := false)], [alice], [Checkout(1, 1, 1, t1, None)]);
    var r4 := CheckoutBook(r3.store, 1, 2, t2);
    var r5 := ReturnCheckout(r4.store, 1, t3);
    assert CheckoutId(r4.store.checkouts[0]) == 1;
    assert BookId(r4.store.books[0]) == 1;
    assert r5.store == Store([dune], [alice], [Checkout(1, 1, 1, t1, Some(t3))]);
    ReturnTwiceIsNoChange(r4.store, 1, t3, t4);
    assert !Keyed.HasKey(r5.store.members, MemberId, 2);
  }
}
