/**
 The three tables, the clock and what the schema promises about them.
 Instants are integer milliseconds in UTC; dates are day indexes.
 */
module Schema {
  import opened Wrappers
  import opened Collections

  const MS_PER_DAY: int := 86_400_000

  /** The UTC calendar day of an instant. */
  function Day(t: int): int { t / MS_PER_DAY }

  /** Days are counted from instant 0 in steps of 24 hours, also before it. */
  lemma DayBounds(t: int)
    ensures Day(t) * (24 * 60 * 60 * 1000) <= t < (Day(t) + 1) * (24 * 60 * 60 * 1000)
  {
  }

  datatype Role = Librarian | Member
  datatype User = User(role: Role, email: string, firstName: Option<string>, lastName: Option<string>)
  datatype Book = Book(title: string, author: string, genre: string, isbn: string, totalCopies: int)

  datatype Status = Borrowed | Returned | Overdue
  datatype Borrowing = Borrowing(
    id: nat,
    userId: nat,
    bookId: nat,
    borrowedAt: int,
    dueDate: int,
    status: Status,
    returnedAt: Option<int>,
    comment: Option<string>)

  /** `loans` is the borrowings table in storage order; the `next` fields are the id sequences. */
  datatype State = State(
    books: map<nat, Book>,
    users: map<nat, User>,
    loans: seq<Borrowing>,
    nextBook: nat,
    nextUser: nat,
    nextLoan: nat,
    now: int)

  function EmptyDatabase(t0: int): State { State(map[], map[], [], 0, 0, 0, t0) }

  predicate Active(r: Borrowing) { r.status == Borrowed && r.returnedAt == None }

  function OfBook(book: nat): Borrowing -> bool { (r: Borrowing) => r.bookId == book }

  /** Active loans of a book, of one user when `user` is given and of anyone otherwise. */
  function ActiveOf(user: Option<nat>, book: nat): Borrowing -> bool {
    (r: Borrowing) => Active(r) && r.bookId == book && (user.Some? ==> r.userId == user.value)
  }

  function ActiveCount(s: State, user: Option<nat>, book: nat): nat { Count(s.loans, ActiveOf(user, book)) }

  /** Copies the library owns of a book; 0 once the book is gone. */
  function Copies(s: State, book: nat): int {
    if book in s.books then s.books[book].totalCopies else 0
  }

  function AvailableCopies(s: State, book: nat): int { Copies(s, book) - ActiveCount(s, None, book) }

  predicate IsLibrarian(s: State, user: nat) { user in s.users && s.users[user].role == Librarian }

  ghost predicate UniqueIds(loans: seq<Borrowing>) {
    forall i, j | 0 <= i < j < |loans| :: loans[i].id != loans[j].id
  }

  predicate UniqueIsbns(books: map<nat, Book>) {
    forall a, b | a in books && b in books && books[a].isbn == books[b].isbn :: a == b
  }

  predicate UniqueEmails(users: map<nat, User>) {
    forall a, b | a in users && b in users && users[a].email == users[b].email :: a == b
  }

  /** Primary keys, foreign keys, the unique ISBN and e-mail indexes, and returned exactly when stamped. */
  ghost predicate WellFormed(s: State) {
    && UniqueIds(s.loans)
    && (forall r | r in s.loans ::
          r.id < s.nextLoan && r.userId in s.users && r.bookId in s.books && (r.status == Returned <==> r.returnedAt.Some?))
    && (forall b | b in s.books :: b < s.nextBook && s.books[b].totalCopies >= 0)
    && (forall u | u in s.users :: u < s.nextUser)
    && UniqueIsbns(s.books)
    && UniqueEmails(s.users)
  }

  lemma FilterKeepsIds(loans: seq<Borrowing>, keep: Borrowing -> bool)
    requires UniqueIds(loans)
    ensures UniqueIds(Filter(loans, keep))
  {
    if loans == [] {
    } else {
      FilterKeepsIds(loans[1..], keep);
      assert forall k | 0 <= k < |loans[1..]| :: loans[1..][k] == loans[k + 1];
      assert forall r | r in loans[1..] :: r.id != loans[0].id;
    }
  }
}
