/** The three record types of the library catalog. */
module Records {
  import opened Wrappers

  /** A point in time. The clock is outside the model: every operation that
      stamps a record receives the current time as an argument. */
  type Timestamp = int

  /** A book; `available` is false while it is lent out. */
  datatype Book = Book(id: int, title: string, author: string, available: bool)

  /** A library member. The e-mail address is not required to be unique. */
  datatype Member = Member(id: int, name: string, email: string)

  /** One lending of a book to a member; `returnDate` is `None` until the
      book comes back. */
  datatype Checkout = Checkout(
    id: int,
    bookId: int,
    memberId: int,
    checkoutDate: Timestamp,
    returnDate: Option<Timestamp>)

  function BookId(b: Book): int { b.id }

  function MemberId(m: Member): int { m.id }

  function CheckoutId(c: Checkout): int { c.id }

  function IsAvailable(b: Book): bool { b.available }

  /** A checkout whose book has not been returned yet. */
  predicate IsOpen(c: Checkout) { c.returnDate.None? }
}
