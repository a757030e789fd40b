/**
 Every request spelled out: when it gets which answer, and what an accepted one
 leaves behind, in terms of the tables alone.
 */
module Responses {
  import opened Wrappers
  import opened Collections
  import opened Schema
  import opened Loans

  /** The user has a borrowed, not returned loan of the book. */
  ghost predicate HoldsActive(loans: seq<Borrowing>, user: nat, book: nat) {
    exists r | r in loans :: r.userId == user && r.bookId == book && r.status == Borrowed && r.returnedAt == None
  }

  /** How many loans of the book are borrowed and not returned. */
  ghost function Lent(loans: seq<Borrowing>, book: nat): nat {
    Count(loans, (r: Borrowing) => r.bookId == book && r.status == Borrowed && r.returnedAt == None)
  }

  lemma ActiveSpelledOut(s: State, user: nat, book: nat)
    ensures ActiveCount(s, Some(user), book) > 0 <==> HoldsActive(s.loans, user, book)
    ensures ActiveCount(s, None, book) == Lent(s.loans, book)
  {
    CountZero(s.loans, ActiveOf(Some(user), book));
    CountSame(s.loans, ActiveOf(None, book), (r: Borrowing) => r.bookId == book && r.status == Borrowed && r.returnedAt == None);
  }

  /** What the validators of a create report: a duplicate first, then no copies. */
  ghost function CreateProblems(loans: seq<Borrowing>, user: nat, book: nat, total: int): seq<Error> {
    (if HoldsActive(loans, user, book) then [DuplicateActive] else []) + (if total <= Lent(loans, book) then [NoCopies] else [])
  }

  /** A create: refused by the first thing missing, or by its problems, or one row stamped now and due in 14 days. */
  lemma CreateAnswered(s: State, user: nat, book: nat)
    ensures var (after, response) := Create(s, user, book);
      && (response == Unauthorized <==> user !in s.users)
      && (response == NotFound <==> user in s.users && book !in s.books)
      && (user in s.users && book in s.books ==>
            var problems := CreateProblems(s.loans, user, book, s.books[book].totalCopies);
            response == if problems == [] then Ok else Unprocessable(problems))
      && after == if response != Ok then s else
           s.(loans := s.loans + [Borrowing(s.nextLoan, user, book, s.now, Day(s.now) + 14, Borrowed, None, None)],
              nextLoan := s.nextLoan + 1)
  {
    ActiveSpelledOut(s, user, book);
    assert Day(s.now + LOAN_DAYS * MS_PER_DAY) == Day(s.now) + 14;
  }

  /** Nobody but a signed-in librarian gets past these two answers. */
  ghost predicate LibrariansOnly(users: map<nat, User>, actor: nat, response: Response) {
    && (response == Unauthorized <==> actor !in users)
    && (response == Forbidden <==> actor in users && users[actor].role != Librarian)
  }

  ghost predicate Staff(users: map<nat, User>, actor: nat) { actor in users && users[actor].role == Librarian }

  ghost predicate LoanExists(loans: seq<Borrowing>, id: nat) { exists r | r in loans :: r.id == id }

  /** The one row changes: returned, stamped, commented unless the comment is blank. */
  ghost predicate OnlyReturned(before: seq<Borrowing>, after: seq<Borrowing>, id: nat, at: int, comment: string) {
    && |after| == |before|
    && forall i | 0 <= i < |before| :: after[i] == if before[i].id != id then before[i] else
         before[i].(status := Returned, returnedAt := Some(at), comment := if Blank(comment) then None else Some(comment))
  }

  /** A return: the loan is looked up before the role, so a member learns which loans exist; only librarians return. */
  lemma ReturnAnswered(s: State, actor: nat, id: nat, comment: string)
    ensures var (after, response) := Execute(s, ReturnBook(actor, id, comment));
      && (response == Unauthorized <==> actor !in s.users)
      && (response == NotFound <==> actor in s.users && !LoanExists(s.loans, id))
      && (response == Forbidden <==> actor in s.users && LoanExists(s.loans, id) && s.users[actor].role != Librarian)
      && (response == Ok <==> Staff(s.users, actor) && LoanExists(s.loans, id))
      && (response != Ok ==> after == s)
      && (response == Ok ==> after == s.(loans := after.loans) && OnlyReturned(s.loans, after.loans, id, s.now, comment))
  {
  }

  /** Exactly the borrowed rows due before today become overdue, and nothing else about them changes. */
  ghost predicate OnlyMarked(before: seq<Borrowing>, after: seq<Borrowing>, today: int) {
    && |after| == |before|
    && forall i | 0 <= i < |before| :: after[i] ==
         if before[i].status == Borrowed && before[i].dueDate < today then before[i].(status := Overdue) else before[i]
  }

  lemma MarkingAnswered(s: State)
    ensures var (after, response) := Execute(s, MarkOverdue);
      response == Ok && after == s.(loans := after.loans) && OnlyMarked(s.loans, after.loans, Day(s.now))
  {
  }

  /** Every text present, no other book with the ISBN, a total of at least 0. */
  ghost predicate BookAccepted(books: map<nat, Book>, book: Book, id: nat) {
    && !Blank(book.title) && !Blank(book.author) && !Blank(book.genre) && !Blank(book.isbn) && book.totalCopies >= 0
    && forall b | b in books && b != id :: books[b].isbn != book.isbn
  }

  lemma BookCreated(s: State, actor: nat, book: Book)
    requires WellFormed(s)
    ensures var (after, response) := Execute(s, CreateBook(actor, book));
      && LibrariansOnly(s.users, actor, response)
      && (response == Ok <==> Staff(s.users, actor) && BookAccepted(s.books, book, s.nextBook))
      && (response == Unprocessable([InvalidBook]) <==> Staff(s.users, actor) && !BookAccepted(s.books, book, s.nextBook))
      && after == if response != Ok then s else s.(books := s.books[s.nextBook := book], nextBook := s.nextBook + 1)
  {
  }

  /** What was sent replaces, what was not sent stays. */
  ghost predicate Written<T>(now: T, sent: Option<T>, before: T) {
    now == match sent case Some(value) => value case None => before
  }

  ghost predicate BookWritten(now: Book, sent: BookParams, before: Book) {
    && Written(now.title, sent.title, before.title) && Written(now.author, sent.author, before.author)
    && Written(now.genre, sent.genre, before.genre) && Written(now.isbn, sent.isbn, before.isbn)
    && Written(now.totalCopies, sent.totalCopies, before.totalCopies)
  }

  ghost predicate UserWritten(now: User, sent: UserParams, before: User) {
    && Written(now.email, sent.email, before.email) && Written(now.firstName, sent.firstName, before.firstName)
    && Written(now.lastName, sent.lastName, before.lastName) && now.role == before.role
  }

  lemma BookUpdated(s: State, actor: nat, id: nat, sent: BookParams)
    ensures var (after, response) := Execute(s, UpdateBook(actor, id, sent));
      && LibrariansOnly(s.users, actor, response)
      && (response == NotFound <==> Staff(s.users, actor) && id !in s.books)
      && (Staff(s.users, actor) && id in s.books ==>
            exists book :: BookWritten(book, sent, s.books[id])
              && if BookAccepted(s.books, book, id) then response == Ok && after == s.(books := s.books[id := book])
                 else response == Unprocessable([InvalidBook]))
      && (response != Ok ==> after == s)
  {
    if id in s.books { assert BookWritten(AssignBook(s.books[id], sent), sent, s.books[id]); }
  }

  /** The book goes, and with it exactly its borrowings. */
  lemma BookRemoved(s: State, actor: nat, id: nat)
    ensures var (after, response) := Execute(s, DestroyBook(actor, id));
      && LibrariansOnly(s.users, actor, response)
      && (response == NotFound <==> Staff(s.users, actor) && id !in s.books)
      && (response == Ok <==> Staff(s.users, actor) && id in s.books)
      && (response != Ok ==> after == s)
      && (response == Ok ==> after == s.(books := s.books - {id}, loans := after.loans)
                             && forall r :: r in after.loans <==> r in s.loans && r.bookId != id)
  {
  }

  ghost predicate EmailFree(users: map<nat, User>, email: string, id: nat) {
    forall u | u in users && u != id :: users[u].email != email
  }

  /** Whatever role was sent, a created member is a member. */
  lemma MemberCreated(s: State, actor: nat, user: User)
    requires WellFormed(s)
    ensures var (after, response) := Execute(s, CreateMember(actor, user));
      && LibrariansOnly(s.users, actor, response)
      && (response == Ok <==> Staff(s.users, actor) && EmailFree(s.users, user.email, s.nextUser))
      && (response == Unprocessable([InvalidUser]) <==> Staff(s.users, actor) && !EmailFree(s.users, user.email, s.nextUser))
      && after == if response != Ok then s else s.(users := s.users[s.nextUser := user.(role := Member)], nextUser := s.nextUser + 1)
  {
  }

  /** An update of a user who is found: refused for an e-mail in use, otherwise written. */
  ghost predicate UserUpdate(s: State, id: nat, sent: UserParams, after: State, response: Response)
    requires id in s.users
  {
    exists user :: UserWritten(user, sent, s.users[id])
      && if EmailFree(s.users, user.email, id) then response == Ok && after == s.(users := s.users[id := user])
         else response == Unprocessable([InvalidUser]) && after == s
  }

  ghost predicate MemberExists(users: map<nat, User>, id: nat) { id in users && users[id].role == Member }

  lemma MemberUpdated(s: State, actor: nat, id: nat, sent: UserParams)
    ensures var (after, response) := Execute(s, UpdateMember(actor, id, sent));
      && LibrariansOnly(s.users, actor, response)
      && (response == NotFound <==> Staff(s.users, actor) && !MemberExists(s.users, id))
      && (Staff(s.users, actor) && MemberExists(s.users, id) ==> UserUpdate(s, id, sent, after, response))
      && (response != Ok ==> after == s)
  {
    if id in s.users { assert UserWritten(AssignUser(s.users[id], sent), sent, s.users[id]); }
  }

  lemma AccountUpdated(s: State, actor: nat, sent: UserParams)
    ensures var (after, response) := Execute(s, UpdateAccount(actor, sent));
      && (response == Unauthorized <==> actor !in s.users)
      && (if actor in s.users then UserUpdate(s, actor, sent, after, response) else after == s)
  {
    if actor in s.users { assert UserWritten(AssignUser(s.users[actor], sent), sent, s.users[actor]); }
  }

  /** Librarians cannot be removed this way; a removed member takes exactly their borrowings along. */
  lemma MemberRemoved(s: State, actor: nat, id: nat)
    ensures var (after, response) := Execute(s, DestroyMember(actor, id));
      && LibrariansOnly(s.users, actor, response)
      && (response == NotFound <==> Staff(s.users, actor) && !MemberExists(s.users, id))
      && (response == Ok <==> Staff(s.users, actor) && MemberExists(s.users, id))
      && (response != Ok ==> after == s)
      && (response == Ok ==> after == s.(users := s.users - {id}, loans := after.loans)
                             && forall r :: r in after.loans <==> r in s.loans && r.userId != id)
  {
  }
}
